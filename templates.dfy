/**
  Patient-specific policy templates: the fourteen add*PolicySet entry points,
  the placeholder fillers they apply, the subject-id substitution that runs
  before every filler, and the choice of the one template file a family uses.
 */
module Templates {
  import opened Wrappers
  import opened Text
  import opened PolicyTypes

  const OriginalDirName := "src/main/resources/policy-stack/original"
  const ModifiedDirName := "src/main/resources/policy-stack/modified"

  /** The directory a variant's base policies are walked from. */
  function BasePolicyRoot(dirName: string): string
  {
    dirName + "/Privacy Policy Stack/EPD Policy Stack"
  }

  /** The directory a variant's patient templates are walked from. */
  function PatientTemplateRoot(dirName: string): string
  {
    dirName + "/Privacy Policy Stack/Patient Specific via Policy Manager"
  }

  // Placeholder tokens of the templates.
  const SpidToken := "=\"epr-spid-goes-here\""
  const Spid201Token := ">\"epd-spid-goes-here\"<"
  const AccessLevelNormal := "urn:e-health-suisse:2015:policies:access-level:normal"
  const ProvideLevelNormal := "urn:e-health-suisse:2015:policies:provide-level:normal"
  const ExclusionList := "urn:e-health-suisse:2015:policies:exclusion-list"
  const DelegationAndNormal := "urn:e-health-suisse:2015:policies:access-level:delegation-and-normal"
  const OidPlaceholder := "2.999"
  const GroupOidPlaceholder := "urn:oid:2.999"
  const ToDatePlaceholder := "2016-02-07"
  const DelegationFromPlaceholder := "2023-02-01"
  const DelegationToPlaceholder := "2023-02-28"

  /**
    One call of a public add*PolicySet method with its arguments. Dates are
    given already rendered as yyyy-MM-dd.
   */
  datatype EntryPoint =
    | Original201(eprSpid: string)
    | Modified201(eprSpid: string)
    | Original202(eprSpid: string, emergencyAccessLevel: string)
    | Modified202(eprSpid: string, emergencyAccessLevel: string)
    | Original203(eprSpid: string, provideAccessLevel: string)
    | Modified203(eprSpid: string, provideAccessLevel: string)
    | Original301(eprSpid: string, gln: string, toDate: string, hcpReadAccessLevel: string)
    | Modified301(eprSpid: string, gln: string, toDate: string, hcpReadAccessLevel: string)
    | Original302(eprSpid: string, groupOid: string, toDate: string, groupReadAccessLevel: string)
    | Modified302(eprSpid: string, groupOid: string, toDate: string, groupReadAccessLevel: string)
    | Original303(eprSpid: string, representativeId: string, toDate: string)
    | Modified303(eprSpid: string, representativeId: string, toDate: string)
    | Original304(eprSpid: string, gln: string, fromDate: string, toDate: string, hcpReadAccessLevel: string)
    | Modified304(eprSpid: string, gln: string, fromDate: string, toDate: string, hcpReadAccessLevel: string,
                  homeCommunityId: string)

  /**
    The variant directory an entry point reads its template from: the
    modified tree for every modified entry point except 304.
   */
  function DirName(e: EntryPoint): (d: string)
    ensures d == OriginalDirName || d == ModifiedDirName
    ensures d == ModifiedDirName <==>
              e.Modified201? || e.Modified202? || e.Modified203? ||
              e.Modified301? || e.Modified302? || e.Modified303?
  {
    match e
    case Original201(_) => OriginalDirName
    case Modified201(_) => ModifiedDirName
    case Original202(_, _) => OriginalDirName
    case Modified202(_, _) => ModifiedDirName
    case Original203(_, _) => OriginalDirName
    case Modified203(_, _) => ModifiedDirName
    case Original301(_, _, _, _) => OriginalDirName
    case Modified301(_, _, _, _) => ModifiedDirName
    case Original302(_, _, _, _) => OriginalDirName
    case Modified302(_, _, _, _) => ModifiedDirName
    case Original303(_, _, _) => OriginalDirName
    case Modified303(_, _, _) => ModifiedDirName
    case Original304(_, _, _, _, _) => OriginalDirName
    case Modified304(_, _, _, _, _, _) => OriginalDirName  // as written: not ModifiedDirName
  }

  /** The template family an entry point instantiates. */
  function TemplateId(e: EntryPoint): int
  {
    match e
    case Original201(_) | Modified201(_) => 201
    case Original202(_, _) | Modified202(_, _) => 202
    case Original203(_, _) | Modified203(_, _) => 203
    case Original301(_, _, _, _) | Modified301(_, _, _, _) => 301
    case Original302(_, _, _, _) | Modified302(_, _, _, _) => 302
    case Original303(_, _, _) | Modified303(_, _, _) => 303
    case Original304(_, _, _, _, _) | Modified304(_, _, _, _, _, _) => 304
  }

  /** A chain of literal replacements, applied in sequence order. */
  type Replacement = (string, string)

  predicate NonEmptyTargets(ps: seq<Replacement>)
  {
    forall i :: 0 <= i < |ps| ==> ps[i].0 != []
  }

  /** The replacements an entry point's filler performs, in the order it performs them. */
  function Replacements(e: EntryPoint): (ps: seq<Replacement>)
    ensures NonEmptyTargets(ps)
  {
    match e
    case Original201(_) | Modified201(_) =>
      [(Spid201Token, Spid201Value(e.eprSpid))]
    case Original202(_, _) | Modified202(_, _) =>
      [(AccessLevelNormal, e.emergencyAccessLevel)]
    case Original203(_, _) | Modified203(_, _) =>
      [(ProvideLevelNormal, e.provideAccessLevel)]
    case Original301(_, _, _, _) | Modified301(_, _, _, _) =>
      [(OidPlaceholder, e.gln), (ToDatePlaceholder, e.toDate), (ExclusionList, e.hcpReadAccessLevel)]
    case Original302(_, _, _, _) | Modified302(_, _, _, _) =>
      [(GroupOidPlaceholder, e.groupOid), (ToDatePlaceholder, e.toDate), (AccessLevelNormal, e.groupReadAccessLevel)]
    case Original303(_, _, _) | Modified303(_, _, _) =>
      [(OidPlaceholder, e.representativeId), (ToDatePlaceholder, e.toDate)]
    case Original304(_, _, _, _, _) | Modified304(_, _, _, _, _, _) =>
      [(OidPlaceholder, e.gln), (DelegationFromPlaceholder, e.fromDate),
       (DelegationToPlaceholder, e.toDate), (DelegationAndNormal, e.hcpReadAccessLevel)]
  }

  function ApplyAll(xml: string, ps: seq<Replacement>): string
    requires NonEmptyTargets(ps)
    decreases |ps|
  {
    if ps == [] then xml else ApplyAll(ReplaceAll(xml, ps[0].0, ps[0].1), ps[1..])
  }

  /**
    The placeholder filler of an entry point; a template with none of its
    placeholders comes back unchanged.
   */
  function Fill(e: EntryPoint, xml: string): (filled: string)
    ensures (forall i :: 0 <= i < |Replacements(e)| ==> !Contains(xml, Replacements(e)[i].0)) ==> filled == xml
  {
    ApplyAllAbsent(xml, Replacements(e));
    ApplyAll(xml, Replacements(e))
  }

  /**
    The subject-id substitution goes through String.replaceAll; its pattern
    has no regular-expression metacharacters, and a replacement without '$'
    and '\' is inserted literally.
   */
  predicate LiteralReplacement(r: string)
  {
    '$' !in r && '\\' !in r
  }

  function SpidValue(eprSpid: string): string
  {
    "=\"" + eprSpid + "\""
  }

  function SubstituteSpid(xml: string, eprSpid: string): string
    requires LiteralReplacement(eprSpid)
  {
    ReplaceAll(xml, SpidToken, SpidValue(eprSpid))
  }

  /**
    The template text after the subject-id substitution and then the filler:
    one ordered chain, the subject-id replacement first, then the filler's
    replacements in the order the filler lists them.
   */
  function Instantiate(e: EntryPoint, raw: string): (xml: string)
    requires LiteralReplacement(e.eprSpid)
    ensures NonEmptyTargets([(SpidToken, SpidValue(e.eprSpid))] + Replacements(e))
    ensures xml == ApplyAll(raw, [(SpidToken, SpidValue(e.eprSpid))] + Replacements(e))
  {
    var spid := [(SpidToken, SpidValue(e.eprSpid))];
    ApplyAllAppend(raw, spid, Replacements(e));
    assert spid[1..] == [];
    assert ApplyAll(raw, spid) == ApplyAll(SubstituteSpid(raw, e.eprSpid), []);
    Fill(e, SubstituteSpid(raw, e.eprSpid))
  }

  /** A chain whose targets are all absent leaves the text unchanged. */
  lemma {:induction false} ApplyAllAbsent(xml: string, ps: seq<Replacement>)
    requires NonEmptyTargets(ps)
    ensures (forall i :: 0 <= i < |ps| ==> !Contains(xml, ps[i].0)) ==> ApplyAll(xml, ps) == xml
    decreases |ps|
  {
    if ps != [] && forall i :: 0 <= i < |ps| ==> !Contains(xml, ps[i].0) {
      assert !Contains(xml, ps[0].0);
      ApplyAllAbsent(xml, ps[1..]);
      assert ApplyAll(xml, ps) == ApplyAll(xml, ps[1..]);
    }
  }

  /** Running two chains one after the other is running their concatenation. */
  lemma {:induction false} ApplyAllAppend(xml: string, ps: seq<Replacement>, qs: seq<Replacement>)
    requires NonEmptyTargets(ps) && NonEmptyTargets(qs)
    ensures NonEmptyTargets(ps + qs)
    ensures ApplyAll(xml, ps + qs) == ApplyAll(ApplyAll(xml, ps), qs)
    decreases |ps|
  {
    if ps == [] {
      assert ps + qs == qs;
    } else {
      assert (ps + qs)[0] == ps[0] && (ps + qs)[1..] == ps[1..] + qs;
      ApplyAllAppend(ReplaceAll(xml, ps[0].0, ps[0].1), ps[1..], qs);
    }
  }

  /** A template carrying neither the subject-id token nor the filler's tokens is used verbatim. */
  lemma InstantiateAbsent(e: EntryPoint, raw: string)
    requires LiteralReplacement(e.eprSpid) && !Contains(raw, SpidToken)
    requires forall i :: 0 <= i < |Replacements(e)| ==> !Contains(raw, Replacements(e)[i].0)
    ensures Instantiate(e, raw) == raw
  {
  }

  /** The 301 filler: the GLN, then the end date, then the access level. */
  lemma Fill301Steps(e: EntryPoint, xml: string)
    requires e.Original301? || e.Modified301?
    ensures Fill(e, xml) ==
      ReplaceAll(ReplaceAll(ReplaceAll(xml, OidPlaceholder, e.gln), ToDatePlaceholder, e.toDate),
                 ExclusionList, e.hcpReadAccessLevel)
  {
    var ps := Replacements(e);
    var x1 := ReplaceAll(xml, OidPlaceholder, e.gln);
    var x2 := ReplaceAll(x1, ToDatePlaceholder, e.toDate);
    var x3 := ReplaceAll(x2, ExclusionList, e.hcpReadAccessLevel);
    assert ps[1..][1..][1..] == [];
    assert ApplyAll(x3, []) == x3;
    assert ApplyAll(x2, ps[1..][1..]) == x3;
    assert ApplyAll(x1, ps[1..]) == x3;
  }

  /**
    The modified 304 entry point reads the original template directory and
    fills exactly as the original 304 entry point; its homeCommunityId
    takes no part.
   */
  lemma Modified304AsOriginal(eprSpid: string, gln: string, fromDate: string, toDate: string,
                              level: string, homeCommunityId: string, xml: string)
    ensures var m := Modified304(eprSpid, gln, fromDate, toDate, level, homeCommunityId);
            var o := Original304(eprSpid, gln, fromDate, toDate, level);
            DirName(m) == DirName(o) == OriginalDirName && TemplateId(m) == TemplateId(o) &&
            Fill(m, xml) == Fill(o, xml)
  {
  }

  /** The value the 201 fillers put in place of their placeholder. */
  function Spid201Value(eprSpid: string): string
  {
    ">" + eprSpid + "<"
  }

  /** Both 201 fillers are the one replacement of their placeholder by the framed subject id. */
  lemma Fill201IsReplace(e: EntryPoint, xml: string)
    requires e.Original201? || e.Modified201?
    ensures Fill(e, xml) == ReplaceAll(xml, Spid201Token, Spid201Value(e.eprSpid))
  {
    var ps := Replacements(e);
    assert ps == [(Spid201Token, Spid201Value(e.eprSpid))] && ps[1..] == [];
    assert ApplyAll(xml, ps) == ApplyAll(ReplaceAll(xml, Spid201Token, Spid201Value(e.eprSpid)), []);
  }

  /** The 201 placeholder starts with '>', ends with '<' and has neither in between. */
  lemma Spid201Guarded()
    ensures Guarded(Spid201Token, '>', '<')
  {
    var inner := "\"epd-spid-goes-here\"";
    assert Spid201Token == ">" + inner + "<";
    assert Spid201Token[1..|Spid201Token| - 1] == inner;
    assert '>' !in inner && '<' !in inner by {
      forall k | 0 <= k < |inner| ensures inner[k] != '>' && inner[k] != '<' {
      }
    }
  }

  /**
    A 201 filler whose value does not carry the placeholder leaves no
    placeholder behind: the placeholder starts with '>' and ends with '<' and
    has neither in between, so no occurrence can straddle a value.
   */
  lemma Fill201Clears(e: EntryPoint, xml: string)
    requires e.Original201? || e.Modified201?
    requires !Contains(Spid201Value(e.eprSpid), Spid201Token)
    ensures !Contains(Fill(e, xml), Spid201Token)
  {
    var r := Spid201Value(e.eprSpid);
    Spid201Guarded();
    Fill201IsReplace(e, xml);
    ReplaceIsJoin(xml, Spid201Token, r);
    SplitPiecesFree(xml, Spid201Token);
    JoinFree(Split(xml, Spid201Token), r, Spid201Token, '>', '<');
  }

  /** Under the same condition re-filling a filled 201 template changes nothing. */
  lemma Fill201Idempotent(e: EntryPoint, xml: string)
    requires e.Original201? || e.Modified201?
    requires !Contains(Spid201Value(e.eprSpid), Spid201Token)
    ensures Fill(e, Fill(e, xml)) == Fill(e, xml)
  {
    Fill201Clears(e, xml);
    Fill201IsReplace(e, Fill(e, xml));
  }

  /**
    Re-filling an already filled 201 template changes it again when the
    template held the placeholder and the framed subject id carries it
    without being the placeholder itself, so the filler is not idempotent in
    general.
   */
  lemma Fill201NotIdempotent(e: EntryPoint, xml: string)
    requires e.Original201? || e.Modified201?
    requires Contains(xml, Spid201Token)
    requires Contains(Spid201Value(e.eprSpid), Spid201Token) && Spid201Value(e.eprSpid) != Spid201Token
    ensures Fill(e, Fill(e, xml)) != Fill(e, xml)
  {
    ReplaceTwiceChanges(xml, Spid201Token, Spid201Value(e.eprSpid));
    Fill201IsReplace(e, xml);
    Fill201IsReplace(e, Fill(e, xml));
  }

  /**
    Exactly when re-filling a filled 201 template changes nothing: the
    template did not hold the placeholder, or the framed subject id does not
    carry it, or the framed id is the placeholder itself.
   */
  lemma Fill201IdempotentIff(e: EntryPoint, xml: string)
    requires e.Original201? || e.Modified201?
    ensures Fill(e, Fill(e, xml)) == Fill(e, xml) <==>
              (!Contains(xml, Spid201Token) || !Contains(Spid201Value(e.eprSpid), Spid201Token) ||
               Spid201Value(e.eprSpid) == Spid201Token)
  {
    var r := Spid201Value(e.eprSpid);
    Fill201IsReplace(e, xml);
    Fill201IsReplace(e, Fill(e, xml));
    if !Contains(r, Spid201Token) {
      Fill201Idempotent(e, xml);
    } else if r == Spid201Token {
      ReplaceUnchangedIff(Fill(e, xml), Spid201Token, r);
    } else if !Contains(xml, Spid201Token) {
      ReplaceUnchangedIff(xml, Spid201Token, r);
    } else {
      Fill201NotIdempotent(e, xml);
    }
  }

  /** Java's File.separatorChar on the platforms the repository runs on. */
  const Separator := '/'

  /** The text after the last separator: all of the path when it has none. */
  function Basename(path: string): (b: string)
    ensures Separator !in b
    ensures |b| <= |path| && b == path[|path| - |b|..]
    ensures b == path || (|b| < |path| && path[|path| - |b| - 1] == Separator)
  {
    path[LastIndexOf(path, Separator) + 1..]
  }

  /** The filter of the template walk: basename prefix "<templateId>-" and suffix ".xml". */
  predicate Selected(path: string, templateId: int)
  {
    StartsWith(Basename(path), IntToString(templateId) + "-") && EndsWith(path, ".xml")
  }

  /** The elements of `s` that `keep` accepts, in their order. */
  function Filter(s: seq<string>, keep: string -> bool): (r: seq<string>)
    ensures forall x :: multiset(r)[x] == if keep(x) then multiset(s)[x] else 0
  {
    if s == [] then []
    else
      var rest := Filter(s[1..], keep);
      assert s == [s[0]] + s[1..];
      if keep(s[0]) then [s[0]] + rest else rest
  }

  /** The walked paths a template family selects. */
  function SelectTemplates(paths: seq<string>, templateId: int): (r: seq<string>)
    ensures forall p :: multiset(r)[p] == if Selected(p, templateId) then multiset(paths)[p] else 0
  {
    Filter(paths, p => Selected(p, templateId))
  }

  /** A one-element filter result is the only accepted element of the input, and it occurs there once. */
  lemma FilterSingle(s: seq<string>, keep: string -> bool)
    requires |Filter(s, keep)| == 1
    ensures var p := Filter(s, keep)[0];
            && p in s && keep(p) && multiset(s)[p] == 1
            && forall q :: q in s && keep(q) ==> q == p
  {
    var kept := Filter(s, keep);
    var p := kept[0];
    assert kept == [p];
    assert multiset(kept) == multiset{p};
    assert multiset(kept)[p] == 1;
    forall q | q in s && keep(q) ensures q == p {
      assert multiset(s)[q] > 0;
      assert multiset(kept)[q] == multiset(s)[q];
    }
  }

  /** A single selected path is the only walked path the family selects, and it is walked once. */
  lemma SingleSelection(paths: seq<string>, templateId: int)
    requires |SelectTemplates(paths, templateId)| == 1
    ensures var p := SelectTemplates(paths, templateId)[0];
            && p in paths && Selected(p, templateId) && multiset(paths)[p] == 1
            && forall q :: q in paths && Selected(q, templateId) ==> q == p
  {
    FilterSingle(paths, p => Selected(p, templateId));
  }

  /** The one selected template, or the error naming the family id and the selected count. */
  function ChooseTemplate(paths: seq<string>, templateId: int): (r: Result<string, Error>)
    ensures r.Success? <==> |SelectTemplates(paths, templateId)| == 1
    ensures r.Success? ==>
              && r.value in paths && Selected(r.value, templateId) && multiset(paths)[r.value] == 1
              && forall q :: q in paths && Selected(q, templateId) ==> q == r.value
    ensures r.Failure? ==> r.error == TemplateCount(templateId, |SelectTemplates(paths, templateId)|)
  {
    var selected := SelectTemplates(paths, templateId);
    if |selected| != 1 then Failure(TemplateCount(templateId, |selected|))
    else
      SingleSelection(paths, templateId);
      Success(selected[0])
  }

  /** A path is selected by at most one template family: "2010-" never passes for 201. */
  lemma SelectionSeparatesFamilies(path: string, a: int, b: int)
    requires Selected(path, a) && Selected(path, b)
    ensures a == b
  {
    var base := Basename(path);
    var sa, sb := IntToString(a), IntToString(b);
    if |sa| < |sb| {
      assert base[|sa|] == (sa + "-")[|sa|] == '-';
      assert base[|sa|] == (sb + "-")[|sa|] == sb[|sa|];
      IntToStringDash(b, |sa|);
    } else if |sb| < |sa| {
      assert base[|sb|] == (sb + "-")[|sb|] == '-';
      assert base[|sb|] == (sa + "-")[|sb|] == sa[|sb|];
      IntToStringDash(a, |sb|);
    } else {
      assert sa == (sa + "-")[..|sa|] == base[..|sa|] == (sb + "-")[..|sb|] == sb;
      IntToStringInjective(a, b);
    }
  }

  /** The 201 family selects the ".xml" paths whose basename starts with "201-". */
  lemma Selected201(path: string)
    ensures Selected(path, 201) <==> StartsWith(Basename(path), "201-") && EndsWith(path, ".xml")
  {
    IntToString201();
  }
}
