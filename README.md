# Policy repository of the EPR policy stack test bench

`PolicyRepository` is the policy retrieval point of a test bench for the
Swiss electronic patient record (EPR) XACML policy stack. It keeps three
things:

- a **base index** of policies and policy sets. The constructor fills it by
  walking two policy trees, the original and then the modified one, and
  registering every `.xml` file in them.
- a **patient index**. It is filled by fourteen public `add*PolicySet`
  entry points. Each one picks the single template file of its template
  family (201, 202, 203, 301, 302, 303 or 304) from its variant's template
  tree, substitutes the patient id (`="epr-spid-goes-here"`), runs its
  placeholder filler (a fixed chain of literal `String.replace` calls) and
  registers the result.
- the set of **first rule ids** seen so far. Every registered policy adds
  its first rule id to it, and a rule id seen before is reported as a
  duplicate.

Registration is last-write-wins per identity and reports whether an entry
was replaced. `getEvaluatable` looks in the base index first, then in the
patient index. `getEvaluatables` returns every patient document and ignores
the request.

Two behaviours are kept exactly as the code has them:

- `addModified304PolicySet` walks the *original* template tree, not the
  modified one.
- `addModified304PolicySet` ignores its `homeCommunityId` argument.

Each entry point reads its raw template afresh, so calling it twice
leaves the state as the first call left it (`AddPatientTwiceReplaces`).
Filling an already filled text again is a different matter. For the 201
filler it is a no-op when the framed patient id does not carry the
placeholder (`Fill201Clears`, `Fill201Idempotent`). It changes the text
again when the template held the placeholder and the framed id carries it
without being the placeholder itself (`Fill201NotIdempotent`).
`Fill201IdempotentIff` states both directions, for every patient id.

The project has four modules:

- `Text` (`text.dfy`) models the Java string operations. `String.replace`
  is modelled as a recursion over `indexOf`. The file also holds split and join (an
  independent description of replace), `lastIndexOf` and
  `Integer.toString`.
- `PolicyTypes` (`policy_types.dfy`) holds documents, reports and errors.
- `Templates` (`templates.dfy`) holds the entry points, the fillers, the
  subject-id substitution and template selection.
- `Repository` (`repository.dfy`) specifies every operation as a function on
  a `State` value. Class `PolicyRepository` carries the same three indexes
  as fields, and its methods are proved against those functions.

`Wrappers` (`wrappers.dfy`) holds the `Option`, `Result` and `Outcome`
datatypes.

The file system and the XML unmarshaller are inputs (`Env`):

- the lower-cased paths each directory walk yields;
- the text of each file;
- an uninterpreted `unmarshal` that may reject a text.

Exceptions become `Error` values. Log lines become `Report` flags.

## Model

| member | source | states |
|---|---|---|
| Text.StartsWith | src/main/java/ch/admin/foph/epr/policies/PolicyRepository.java:203 | String.startsWith: the text begins with the prefix |
| Text.EndsWith | src/main/java/ch/admin/foph/epr/policies/PolicyRepository.java:183 | String.endsWith: the text ends with the suffix, as the ".xml" filters of lines 183 and 203 test |
| Text.IndexFrom | src/main/java/ch/admin/foph/epr/policies/PolicyRepository.java:53 | the scan of indexOf from a start index: an occurrence at or after the start with none between the start and it, or -1 when none occurs from the start on |
| Text.IndexOf | src/main/java/ch/admin/foph/epr/policies/PolicyRepository.java:53 | the index found is an occurrence of the target and no earlier index is; -1 exactly when the target does not occur |
| Text.ReplaceAll | src/main/java/ch/admin/foph/epr/policies/PolicyRepository.java:53 | String.replace: a target that does not occur leaves the text unchanged; in general it is the split-and-join of ReplaceIsJoin |
| Text.SplitJoin | src/main/java/ch/admin/foph/epr/policies/PolicyRepository.java:53 | joining the pieces between the found occurrences with the target gives back the original text |
| Text.SplitPiecesFree | src/main/java/ch/admin/foph/epr/policies/PolicyRepository.java:53 | no piece between found occurrences contains the target, so replace finds every occurrence |
| Text.ReplaceIsJoin | src/main/java/ch/admin/foph/epr/policies/PolicyRepository.java:53 | String.replace equals splitting at the target and joining with the replacement |
| Text.ConcatFree | src/main/java/ch/admin/foph/epr/policies/PolicyRepository.java:53 | for a target that starts with one delimiter, ends with another and has neither inside, a replacement framed by those delimiters cannot create an occurrence across its borders |
| Text.JoinFree | src/main/java/ch/admin/foph/epr/policies/PolicyRepository.java:53 | joining target-free pieces with such a framed, target-free replacement gives a target-free text |
| Text.ReplaceLength | src/main/java/ch/admin/foph/epr/policies/PolicyRepository.java:95-97 | a shorter replacement never lengthens the text; an equal-length one keeps its length; a longer one never shortens it |
| Text.ReplaceChanges | src/main/java/ch/admin/foph/epr/policies/PolicyRepository.java:95-97 | an occurring target replaced by a different string changes the text |
| Text.ReplaceUnchangedIff | src/main/java/ch/admin/foph/epr/policies/PolicyRepository.java:95-97 | a replace leaves the text unchanged if and only if the target is absent or the replacement equals the target |
| Text.ReplaceTwiceChanges | src/main/java/ch/admin/foph/epr/policies/PolicyRepository.java:53 | repeating a replace changes the text again when the replacement contains the target and differs from it |
| Text.LastIndexOf | src/main/java/ch/admin/foph/epr/policies/PolicyRepository.java:202 | the result is -1 exactly when the character is absent, and otherwise the position of its last occurrence |
| Text.NatToString | src/main/java/ch/admin/foph/epr/policies/PolicyRepository.java:203 | the decimal text is all digits, its digits denote the number, and it is canonical: no leading zero, so a leading '0' only for 0 |
| Text.NatToStringUnique | src/main/java/ch/admin/foph/epr/policies/PolicyRepository.java:203 | any canonical decimal text that denotes the number is its NatToString, so the decimal text is pinned |
| Text.CanonicalUnique | src/main/java/ch/admin/foph/epr/policies/PolicyRepository.java:203 | two canonical decimal texts that denote the same number are the same text |
| Text.IntToStringInjective | src/main/java/ch/admin/foph/epr/policies/PolicyRepository.java:203 | Integer.toString is injective |
| Text.IntToStringDash | src/main/java/ch/admin/foph/epr/policies/PolicyRepository.java:203 | Integer.toString has no '-' after its first character |
| Text.IntToString | src/main/java/ch/admin/foph/epr/policies/PolicyRepository.java:203 | Integer.toString: non-empty, starting with '-' exactly for negative numbers, its digits denote the magnitude, and the digits have no leading zero |
| Text.IntToString201 | src/main/java/ch/admin/foph/epr/policies/PolicyRepository.java:203 | the prefix of family 201 is the text "201" |
| PolicyTypes.TemplateCountMessage | src/main/java/ch/admin/foph/epr/policies/PolicyRepository.java:207-208 | the message of a template-count error names that error's family id and its number of files selected |
| Templates.BasePolicyRoot | src/main/java/ch/admin/foph/epr/policies/PolicyRepository.java:180 | the walked base-policy directory: the variant directory followed by "/Privacy Policy Stack/EPD Policy Stack" |
| Templates.PatientTemplateRoot | src/main/java/ch/admin/foph/epr/policies/PolicyRepository.java:198 | the walked template directory: the variant directory followed by "/Privacy Policy Stack/Patient Specific via Policy Manager" |
| Templates.TemplateId | src/main/java/ch/admin/foph/epr/policies/PolicyRepository.java:51-163 | the family literal each entry point passes to addPatientPolicy: 201, 202, 203, 301, 302, 303 or 304 |
| Templates.DirName | src/main/java/ch/admin/foph/epr/policies/PolicyRepository.java:51-163 | the template tree is the original or the modified one; the modified tree exactly for the modified 201, 202, 203, 301, 302 and 303 entry points, and so not for modified 304 |
| Templates.Replacements | src/main/java/ch/admin/foph/epr/policies/PolicyRepository.java:51-163 | each filler's chain of (placeholder, value) replacements in call order; every placeholder is non-empty |
| Templates.Fill | src/main/java/ch/admin/foph/epr/policies/PolicyRepository.java:51-163 | a template with none of the filler's placeholders comes out of the filler unchanged |
| Templates.SubstituteSpid | src/main/java/ch/admin/foph/epr/policies/PolicyRepository.java:215 | the subject-id replacement of `="epr-spid-goes-here"` by `="<id>"`, literal for an id without '$' and '\' |
| Templates.Instantiate | src/main/java/ch/admin/foph/epr/policies/PolicyRepository.java:215-216 | instantiation is one ordered chain: the subject-id replacement first, then the filler's replacements in filler order; every target of the chain is non-empty |
| Templates.ApplyAll | src/main/java/ch/admin/foph/epr/policies/PolicyRepository.java:51-163 | a filler lambda's chain of `xml = xml.replace(...)` steps, applied in order; stated by ApplyAllAbsent, ApplyAllAppend and Fill301Steps |
| Templates.ApplyAllAbsent | src/main/java/ch/admin/foph/epr/policies/PolicyRepository.java:93-100 | a replacement chain whose placeholders are all absent leaves the text unchanged |
| Templates.ApplyAllAppend | src/main/java/ch/admin/foph/epr/policies/PolicyRepository.java:93-100 | running two chains in turn is running their concatenation |
| Templates.InstantiateAbsent | src/main/java/ch/admin/foph/epr/policies/PolicyRepository.java:215-216 | a template with neither the subject-id token nor the filler's placeholders is registered verbatim |
| Templates.Fill301Steps | src/main/java/ch/admin/foph/epr/policies/PolicyRepository.java:93-109 | both 301 fillers replace the GLN placeholder, then the end date, then the exclusion-list level |
| Templates.Modified304AsOriginal | src/main/java/ch/admin/foph/epr/policies/PolicyRepository.java:145-163 | the modified 304 entry point uses the original directory, the same family and the same filler as the original one, whatever its homeCommunityId |
| Templates.Fill201IsReplace | src/main/java/ch/admin/foph/epr/policies/PolicyRepository.java:51-63 | both 201 fillers are the one replacement of the 201 placeholder by the patient id framed in '>' and '<' |
| Templates.Fill201Clears | src/main/java/ch/admin/foph/epr/policies/PolicyRepository.java:51-63 | when the framed patient id does not carry the 201 placeholder, the filled text holds no 201 placeholder |
| Templates.Fill201Idempotent | src/main/java/ch/admin/foph/epr/policies/PolicyRepository.java:51-63 | under the same condition, filling a filled 201 template again changes nothing |
| Templates.Fill201NotIdempotent | src/main/java/ch/admin/foph/epr/policies/PolicyRepository.java:51-63 | when the template held the 201 placeholder and the framed patient id carries it without being it, filling the filled template changes it again |
| Templates.Fill201IdempotentIff | src/main/java/ch/admin/foph/epr/policies/PolicyRepository.java:51-63 | re-filling a filled 201 template changes nothing if and only if the template lacked the placeholder, or the framed id does not carry it, or the framed id is the placeholder |
| Templates.Basename | src/main/java/ch/admin/foph/epr/policies/PolicyRepository.java:202-203 | the part after the last separator: a suffix of the path holding no separator, and either the whole path or preceded by a separator |
| Templates.Selected | src/main/java/ch/admin/foph/epr/policies/PolicyRepository.java:201-204 | the walk filter: the basename starts with the family id and '-', and the path ends in ".xml" |
| Templates.Selected201 | src/main/java/ch/admin/foph/epr/policies/PolicyRepository.java:203 | a path is selected for family 201 exactly when its basename starts with "201-" and it ends in ".xml" |
| Templates.Filter | src/main/java/ch/admin/foph/epr/policies/PolicyRepository.java:201-205 | the kept elements are those the test accepts, each as often as in the input |
| Templates.SelectTemplates | src/main/java/ch/admin/foph/epr/policies/PolicyRepository.java:199-205 | the selected paths are the walked paths whose basename starts with "<id>-" and that end in ".xml", with their multiplicities |
| Templates.FilterSingle | src/main/java/ch/admin/foph/epr/policies/PolicyRepository.java:207-211 | a one-element filter result is an accepted input element that occurs there once, and no other input element is accepted |
| Templates.SingleSelection | src/main/java/ch/admin/foph/epr/policies/PolicyRepository.java:207-211 | a one-element selection is a walked path, selected, walked once, and the only selected walked path |
| Templates.ChooseTemplate | src/main/java/ch/admin/foph/epr/policies/PolicyRepository.java:207-211 | succeeds if and only if exactly one path is selected, and returns that one; otherwise fails with the family id and the count |
| Templates.SelectionSeparatesFamilies | src/main/java/ch/admin/foph/epr/policies/PolicyRepository.java:203 | no path is selected by two different template ids: the '-' after the id keeps "2010-" out of family 201 |
| Repository.Parse | src/main/java/ch/admin/foph/epr/policies/PolicyRepository.java:166-168 | succeeds if and only if the text unmarshals and a policy has a first rule; fails with a parse error or a no-rules error otherwise |
| Repository.Insert | src/main/java/ch/admin/foph/epr/policies/PolicyRepository.java:167-174 | the target index maps the document's identity to it and the other index is untouched; replaced exactly when the identity was already a key; a policy adds its first rule id, flagged as duplicate exactly when already recorded; indexes stay keyed by identity with recorded first rules |
| Repository.InsertAgain | src/main/java/ch/admin/foph/epr/policies/PolicyRepository.java:174 | inserting a document the target index already holds under its identity, with its first rule id recorded, leaves the state unchanged and reports a replacement |
| Repository.Register | src/main/java/ch/admin/foph/epr/policies/PolicyRepository.java:165-176 | registerPolicy: parse the text, then insert the document into the target index; Parse and Insert state its effect |
| Repository.ReadAndParse | src/main/java/ch/admin/foph/epr/policies/PolicyRepository.java:188-190 | a base file that cannot be read is a read error; otherwise its text is parsed |
| Repository.LoadFiles | src/main/java/ch/admin/foph/epr/policies/PolicyRepository.java:186-192 | the load loop; its meaning is stated by LoadFilesIsParseThenIndex |
| Repository.LoadBase | src/main/java/ch/admin/foph/epr/policies/PolicyRepository.java:178-194 | loadBasePolicies: a walk that cannot run is a walk error; otherwise the walked ".xml" files are loaded in walk order |
| Repository.XmlFiles | src/main/java/ch/admin/foph/epr/policies/PolicyRepository.java:181-184 | the loaded files are the walked paths ending in ".xml", with their multiplicities |
| Repository.ParseDocs | src/main/java/ch/admin/foph/epr/policies/PolicyRepository.java:186-192 | on success, one registrable document per file, each the parse of its file; on failure, the error of the first file that fails to read or parse, all files before it parsing |
| Repository.ParseFailureShift | src/main/java/ch/admin/foph/epr/policies/PolicyRepository.java:186-192 | the first failing file of the tail is, one place later, the first failing file of the whole list |
| Repository.FirstRuleIdsAppend | src/main/java/ch/admin/foph/epr/policies/PolicyRepository.java:167-172 | the first rule ids of two document lists are the union of each list's |
| Repository.LoadFilesIsParseThenIndex | src/main/java/ch/admin/foph/epr/policies/PolicyRepository.java:186-192 | the load loop succeeds if and only if every file reads and parses; it fails with the first failure; on success it equals indexing the parsed documents in order and adding their first rule ids; the patient index is untouched |
| Repository.IndexAllAppend | src/main/java/ch/admin/foph/epr/policies/PolicyRepository.java:174 | indexing two lists in turn is indexing their concatenation |
| Repository.IndexAllUntouched | src/main/java/ch/admin/foph/epr/policies/PolicyRepository.java:174 | an identity no document carries keeps its entry or its absence |
| Repository.IndexAllLastWins | src/main/java/ch/admin/foph/epr/policies/PolicyRepository.java:174 | last write wins: an identity maps to the last document in the list that carries it |
| Repository.Construct | src/main/java/ch/admin/foph/epr/policies/PolicyRepository.java:46-49 | the constructor loads the original tree and then the modified tree; its meaning is stated by ConstructIndexesBothTrees |
| Repository.ConstructIndexesBothTrees | src/main/java/ch/admin/foph/epr/policies/PolicyRepository.java:46-49 | construction succeeds if and only if both trees load; the base index then indexes the original documents followed by the modified ones, the patient index is empty, and the rule ids are their first rule ids |
| Repository.LaterDocumentsWin | src/main/java/ch/admin/foph/epr/policies/PolicyRepository.java:46-49 | after indexing two lists in turn, an identity the second list carries maps to one of its documents |
| Repository.ModifiedTreeWins | src/main/java/ch/admin/foph/epr/policies/PolicyRepository.java:46-49 | an identity in the modified tree maps, after construction, to a document of the modified tree |
| Repository.OriginalKeptUnlessModified | src/main/java/ch/admin/foph/epr/policies/PolicyRepository.java:46-49 | an identity that only the original tree holds maps to a document of the original tree |
| Repository.TemplateText | src/main/java/ch/admin/foph/epr/policies/PolicyRepository.java:196-214 | the template lookup of addPatientPolicy; its meaning is stated by TemplateTextSelectsOne |
| Repository.AddPatient | src/main/java/ch/admin/foph/epr/policies/PolicyRepository.java:196-220 | addPatientPolicy for one entry point; its meaning is stated by AddPatientEffect and AddPatientFailureFromTemplate |
| Repository.TemplateTextSelectsOne | src/main/java/ch/admin/foph/epr/policies/PolicyRepository.java:196-214 | the template text is found if and only if the variant's tree is walked, exactly one file is selected and it is readable; it is then that file's text; a count other than one fails with the family id and the count |
| Repository.AddPatientEffect | src/main/java/ch/admin/foph/epr/policies/PolicyRepository.java:196-220 | a successful call puts the instantiated, parsed template into the patient index under its identity, leaves the base index alone, reports a replacement exactly when the identity was a patient key, and adds its first rule id |
| Repository.AddPatientFailureFromTemplate | src/main/java/ch/admin/foph/epr/policies/PolicyRepository.java:198-212 | a failed template lookup fails the call with that error and yields no new state |
| Repository.Modified304SameCall | src/main/java/ch/admin/foph/epr/policies/PolicyRepository.java:145-163 | a call of the modified 304 entry point has exactly the result of the original 304 entry point with the same arguments |
| Repository.AddPatientTwiceReplaces | src/main/java/ch/admin/foph/epr/policies/PolicyRepository.java:165-176 | repeating an entry point replaces its own document, leaves the state as the first call left it, and reports a policy's rule id as duplicate |
| Repository.ListingStep | src/main/java/ch/admin/foph/epr/policies/PolicyRepository.java:229 | listing one more key with its document keeps the listing exact |
| Repository.ListingComplete | src/main/java/ch/admin/foph/epr/policies/PolicyRepository.java:229 | listing every key of an index once lists every document once and no other |
| Repository.ValuesOf | src/main/java/ch/admin/foph/epr/policies/PolicyRepository.java:229 | the copied values hold every document of the index exactly once and nothing else |
| Repository.PolicyRepository.Empty | src/main/java/ch/admin/foph/epr/policies/PolicyRepository.java:42-44 | the field initialisers give empty indexes and an empty rule-id set |
| Repository.PolicyRepository.Create | src/main/java/ch/admin/foph/epr/policies/PolicyRepository.java:46-49 | the constructor yields a fresh repository in the state Construct specifies, or that function's error |
| Repository.PolicyRepository.RegisterPolicy | src/main/java/ch/admin/foph/epr/policies/PolicyRepository.java:165-176 | the new fields and report are those of Register; on failure nothing changes |
| Repository.PolicyRepository.LoadBasePolicies | src/main/java/ch/admin/foph/epr/policies/PolicyRepository.java:178-194 | the new fields and outcome are those of LoadBase on the old fields, keeping what registered before a failure |
| Repository.PolicyRepository.AddPolicySet | src/main/java/ch/admin/foph/epr/policies/PolicyRepository.java:196-220 | the new fields and report are those of AddPatient; on failure nothing changes |
| Repository.PolicyRepository.GetEvaluatable | src/main/java/ch/admin/foph/epr/policies/PolicyRepository.java:222-225 | the base entry when there is one, otherwise the patient entry; None exactly when neither index has the identity |
| Repository.PolicyRepository.GetEvaluatables | src/main/java/ch/admin/foph/epr/policies/PolicyRepository.java:227-230 | whatever the request, every patient document exactly once and nothing else |

## Left out

- Directory walks and file reads are not performed. `Env.walks` and `Env.files` give their results. A walk that cannot run is a `WalkError`, and a file that cannot be opened is a `ReadError`.
- The order of `Files.walk` is not modelled. The walk is any sequence, and every property holds for all of them.
- Path lower-casing (`toLowerCase(Locale.ROOT)`) is not modelled as an operation. The walked paths and the file map are keyed by the lower-cased paths.
- XML parsing (`PolicyMarshaller.unmarshal`, `XmlUtils.source`) is the uninterpreted `Env.unmarshal`. A document is reduced to its identity and, for a policy, its rule ids in order.
- Date formatting (`SimpleDateFormat("yyyy-MM-dd")`) is not modelled. Dates are passed already rendered as strings.
- Templates.SubstituteSpid: `replaceAll` is regex-based. The model requires a patient id without `$` and `\` (`LiteralReplacement`). Only for such ids is the regex replacement the literal one, so ids that carry a group reference or an escape are not modelled.
- Templates.Replacements: its contract says only that every placeholder is non-empty. The chains themselves are literal data, and their effect is stated by Fill, Instantiate, Fill201Clears, Fill301Steps and Modified304AsOriginal.
- Text.ReplaceAll: requires a non-empty target. Every target in the source is a non-empty literal, and Java's behaviour for the empty target does not arise.
- Logging is not modelled. The "Replaced"/"Loaded" message and the duplicate-rule warning become the `Report` flags.
- `HashMap` and `HashSet` are maps and sets. `GetEvaluatables` promises no order because `HashMap.values()` promises none.
- There is no concurrency. A failed call leaves state as the source leaves it:
  - a failed base load keeps what registered before the failure;
  - a failed patient registration changes nothing.
- `File.separatorChar` is fixed to `'/'`.
- The static Herasaf initialiser and the closing of streams are not modelled. They have no effect on the indexes.
- getOrderedRules().getFirst() on a policy without rules throws. The model represents this as the `NoRules` error.
- The `PolicyRetrievalPoint` interface is not modelled. `GetEvaluatables` takes its request as an unused type parameter.
