/**
 * The keyword logic of the placenta literature analyser: whether a text
 * speaks of the placenta, which pathway an entity name suggests, the
 * Google Scholar search link for an entity, and the result record built for
 * one entity.
 */
module Analysis {
  import opened Strings

  // ---------------------------------------------------------------------
  // Configuration tables
  // ---------------------------------------------------------------------

  /** The words that mark a text as being about the placenta. */
  const PlacentaKeywords: seq<string> :=
    ["placenta", "placental", "trophoblast", "chorionic", "fetal maternal interface"]

  /** The pathway vocabulary. */
  datatype Pathway =
    | ImmuneResponse | CellCycle | ApoptosisSignaling | Transcriptional | DnaRepair
    | ProteinFolding | StressResponse | NeurotransmitterSignaling | LipidMetabolism
    | ExtracellularMatrix

  /** The label each pathway is written as. */
  function PathwayName(p: Pathway): string {
    match p
    case ImmuneResponse => "Immune Response Regulation"
    case CellCycle => "Cell Cycle Control"
    case ApoptosisSignaling => "Apoptosis Signaling"
    case Transcriptional => "Transcriptional Regulation"
    case DnaRepair => "DNA Repair Mechanisms"
    case ProteinFolding => "Protein Folding and Stability"
    case StressResponse => "Cellular Stress Response"
    case NeurotransmitterSignaling => "Neurotransmitter Signaling"
    case LipidMetabolism => "Lipid Metabolism"
    case ExtracellularMatrix => "Extracellular Matrix Organization"
  }

  /** The vocabulary in the order the configuration lists it. */
  const PathwayGroups: seq<Pathway> := [
    ImmuneResponse, CellCycle, ApoptosisSignaling, Transcriptional, DnaRepair,
    ProteinFolding, StressResponse, NeurotransmitterSignaling, LipidMetabolism,
    ExtracellularMatrix
  ]

  /** The answer when no pathway keyword matches. */
  const NotAvailable := "Not available"

  const LipidKeywords: seq<string> := ["lipid", "fatty", "cholesterol"]
  const NeuroKeywords: seq<string> := ["neuro", "dopamine", "serotonin"]
  const MatrixKeywords: seq<string> := ["collagen", "matrix", "integrin"]
  const DnaKeywords: seq<string> := ["dna", "repair", "p53"]
  const ApoptosisKeywords: seq<string> := ["apoptosis", "caspase"]
  const ImmuneKeywords: seq<string> := ["immune", "interleukin", "tnf"]

  /** The 17 pathway keywords, all groups together. */
  const AllPathwayKeywords: seq<string> :=
    LipidKeywords + NeuroKeywords + MatrixKeywords + DnaKeywords + ApoptosisKeywords + ImmuneKeywords

  // ---------------------------------------------------------------------
  // Placenta context
  // ---------------------------------------------------------------------

  /** `contains_placenta_context`: some placenta keyword occurs in the lower-cased text. */
  function ContainsPlacentaContext(text: string): (r: bool)
    ensures r <==> SomeKeyOccurs(PlacentaKeywords, Lower(text))
  {
    AnyInOccurs(PlacentaKeywords, Lower(text));
    AnyIn(PlacentaKeywords, Lower(text))
  }

  /** The answer does not depend on the case the text is written in. */
  lemma PlacentaCaseInsensitive(text: string)
    ensures ContainsPlacentaContext(Lower(text)) == ContainsPlacentaContext(text)
    ensures ContainsPlacentaContext(Upper(text)) == ContainsPlacentaContext(text)
  {
    LowerIdempotent(text);
    LowerOfUpper(text);
  }

  /** A text that mentions the placenta still does inside any longer text. */
  lemma PlacentaMonotone(a: string, t: string, b: string)
    requires ContainsPlacentaContext(t)
    ensures ContainsPlacentaContext(a + t + b)
  {
    LowerConcat(a + t, b);
    LowerConcat(a, t);
    AnyInExtend(PlacentaKeywords, Lower(a), Lower(t), Lower(b));
  }

  /**
   * Every keyword is at least eight characters long, so a text shorter than
   * that (the empty text in particular) never counts as placenta context.
   */
  lemma PlacentaShortText(text: string)
    requires |text| < 8
    ensures !ContainsPlacentaContext(text)
  {
    forall j | 0 <= j < |PlacentaKeywords| ensures !IsSubstring(PlacentaKeywords[j], Lower(text)) {
      if IsSubstring(PlacentaKeywords[j], Lower(text)) {
        SubstringNoLonger(PlacentaKeywords[j], Lower(text));
      }
    }
  }

  /**
   * "placental" never decides the answer: every text containing it also
   * contains "placenta", so the check is the same without that keyword.
   */
  lemma PlacentalIsRedundant(text: string)
    ensures ContainsPlacentaContext(text)
        <==> AnyIn(["placenta", "trophoblast", "chorionic", "fetal maternal interface"], Lower(text))
  {
    var e := Lower(text);
    var rest := ["placenta", "trophoblast", "chorionic", "fetal maternal interface"];
    var keys := PlacentaKeywords;
    assert keys == [rest[0], "placental"] + rest[1..];
    if AnyIn(keys, e) {
      var j :| 0 <= j < |keys| && IsSubstring(keys[j], e);
      if j == 1 {
        assert OccursAt("placenta", "placental", 0);
        IsSubstringOccurs("placenta", "placental");
        SubstringTransitive("placenta", "placental", e);
        assert IsSubstring(rest[0], e);
      } else if j == 0 {
        assert IsSubstring(rest[0], e);
      } else {
        assert IsSubstring(rest[j - 1], e);
      }
    }
    if AnyIn(rest, e) {
      var j :| 0 <= j < |rest| && IsSubstring(rest[j], e);
      if j == 0 {
        assert IsSubstring(keys[0], e);
      } else {
        assert IsSubstring(keys[j + 1], e);
      }
    }
  }

  // ---------------------------------------------------------------------
  // Pathway inference
  // ---------------------------------------------------------------------

  /** What the classifier decides: one pathway of the vocabulary, or none. */
  datatype Inference = Found(pathway: Pathway) | Unknown

  /** How a decision is written in the result record. */
  function InferenceText(a: Inference): string {
    match a
    case Found(p) => PathwayName(p)
    case Unknown => NotAvailable
  }

  /** Different decisions are written differently, so the text determines the decision. */
  lemma InferenceTextInjective(a: Inference, b: Inference)
    requires InferenceText(a) == InferenceText(b)
    ensures a == b
  {
    TextKey(a);
    TextKey(b);
  }

  /** The length and the first letter of a decision's text. */
  function Key(a: Inference): (int, char) {
    match a
    case Found(ImmuneResponse) => (26, 'I')
    case Found(CellCycle) => (18, 'C')
    case Found(ApoptosisSignaling) => (19, 'A')
    case Found(Transcriptional) => (26, 'T')
    case Found(DnaRepair) => (21, 'D')
    case Found(ProteinFolding) => (29, 'P')
    case Found(StressResponse) => (24, 'C')
    case Found(NeurotransmitterSignaling) => (26, 'N')
    case Found(LipidMetabolism) => (16, 'L')
    case Found(ExtracellularMatrix) => (33, 'E')
    case Unknown => (13, 'N')
  }

  lemma TextKey(a: Inference)
    ensures |InferenceText(a)| > 0 && Key(a) == (|InferenceText(a)|, InferenceText(a)[0])
  {
  }

  /** One step of the classifier: if any keyword matches, answer the pathway. */
  datatype Rule = Rule(keywords: seq<string>, pathway: Pathway)

  /** The classifier's steps, in the order they are tried. */
  const PathwayRules: seq<Rule> := [
    Rule(LipidKeywords, LipidMetabolism),
    Rule(NeuroKeywords, NeurotransmitterSignaling),
    Rule(MatrixKeywords, ExtracellularMatrix),
    Rule(DnaKeywords, DnaRepair),
    Rule(ApoptosisKeywords, ApoptosisSignaling),
    Rule(ImmuneKeywords, ImmuneResponse)
  ]

  /**
   * The decision of `infer_pathway`: the source's chain of early returns over
   * the lower-cased entity.
   */
  function Classify(entity: string): (r: Inference)
    ensures r.Found? ==> r.pathway !in {CellCycle, Transcriptional, ProteinFolding, StressResponse}
  {
    var e := Lower(entity);
    if AnyIn(LipidKeywords, e) then Found(LipidMetabolism)
    else if AnyIn(NeuroKeywords, e) then Found(NeurotransmitterSignaling)
    else if AnyIn(MatrixKeywords, e) then Found(ExtracellularMatrix)
    else if AnyIn(DnaKeywords, e) then Found(DnaRepair)
    else if AnyIn(ApoptosisKeywords, e) then Found(ApoptosisSignaling)
    else if AnyIn(ImmuneKeywords, e) then Found(ImmuneResponse)
    else Unknown
  }

  /**
   * `infer_pathway`: "Not available" or the label of a vocabulary entry, and
   * never one of the four labels no keyword group leads to.
   */
  function InferPathway(entity: string): (r: string)
    ensures r == NotAvailable || exists p :: p in PathwayGroups && r == PathwayName(p)
    ensures forall p :: p in {CellCycle, Transcriptional, ProteinFolding, StressResponse} ==> r != PathwayName(p)
  {
    var a := Classify(entity);
    forall p | p in {CellCycle, Transcriptional, ProteinFolding, StressResponse}
      ensures InferenceText(a) != PathwayName(p)
    {
      if InferenceText(a) == PathwayName(p) { InferenceTextInjective(a, Found(p)); }
    }
    InferenceText(a)
  }

  /**
   * Reference classifier: the pathway of the first rule, from index `from`
   * on, that has a matching keyword.
   */
  function FirstMatch(rules: seq<Rule>, e: string, from: nat): (r: Inference)
    ensures r.Found? ==> exists k :: from <= k < |rules| && r.pathway == rules[k].pathway
    decreases |rules| - from
  {
    if from >= |rules| then Unknown
    else if AnyIn(rules[from].keywords, e) then Found(rules[from].pathway)
    else FirstMatch(rules, e, from + 1)
  }

  /** No pathway appears in two rules. */
  predicate DistinctPathways(rules: seq<Rule>) {
    forall j, k :: 0 <= j < k < |rules| ==> rules[j].pathway != rules[k].pathway
  }

  /**
   * The first-match classifier answers rule `k` exactly when `k` is the
   * first rule, from `from` on, that matches.
   */
  lemma {:induction false} FirstMatchPriority(rules: seq<Rule>, e: string, from: nat, k: nat)
    requires DistinctPathways(rules) && from <= k < |rules|
    ensures FirstMatch(rules, e, from) == Found(rules[k].pathway)
        <==> AnyIn(rules[k].keywords, e) && forall j :: from <= j < k ==> !AnyIn(rules[j].keywords, e)
    decreases k - from
  {
    if from < k {
      if AnyIn(rules[from].keywords, e) {
        assert rules[from].pathway != rules[k].pathway;
      } else {
        FirstMatchPriority(rules, e, from + 1, k);
      }
    }
  }

  /** The first-match classifier finds nothing exactly when no rule from `from` on matches. */
  lemma {:induction false} FirstMatchNone(rules: seq<Rule>, e: string, from: nat)
    ensures FirstMatch(rules, e, from) == Unknown
        <==> forall j :: from <= j < |rules| ==> !AnyIn(rules[j].keywords, e)
    decreases |rules| - from
  {
    if from < |rules| {
      FirstMatchNone(rules, e, from + 1);
    }
  }

  lemma PathwayRulesDistinct()
    ensures DistinctPathways(PathwayRules)
  {
  }

  /** The source's if-chain is the first-match classifier over the rule table. */
  lemma ClassifyIsFirstMatch(entity: string)
    ensures Classify(entity) == FirstMatch(PathwayRules, Lower(entity), 0)
  {
    var e := Lower(entity);
    var rs := PathwayRules;
    assert FirstMatch(rs, e, 6) == Unknown;
    assert FirstMatch(rs, e, 5) == if AnyIn(ImmuneKeywords, e) then Found(ImmuneResponse) else Unknown;
    assert FirstMatch(rs, e, 4)
        == if AnyIn(ApoptosisKeywords, e) then Found(ApoptosisSignaling) else FirstMatch(rs, e, 5);
    assert FirstMatch(rs, e, 3) == if AnyIn(DnaKeywords, e) then Found(DnaRepair) else FirstMatch(rs, e, 4);
    assert FirstMatch(rs, e, 2)
        == if AnyIn(MatrixKeywords, e) then Found(ExtracellularMatrix) else FirstMatch(rs, e, 3);
    assert FirstMatch(rs, e, 1)
        == if AnyIn(NeuroKeywords, e) then Found(NeurotransmitterSignaling) else FirstMatch(rs, e, 2);
    assert FirstMatch(rs, e, 0) == if AnyIn(LipidKeywords, e) then Found(LipidMetabolism) else FirstMatch(rs, e, 1);
  }

  /**
   * First match wins: the entity is classified under group `k` exactly when a
   * keyword of group `k` occurs in the lower-cased entity and no keyword of
   * an earlier group does (groups: lipid, neuro, matrix, DNA, apoptosis,
   * immune).
   */
  lemma InferPathwayPriority(entity: string, k: nat)
    requires k < |PathwayRules|
    ensures InferPathway(entity) == PathwayName(PathwayRules[k].pathway)
        <==> AnyIn(PathwayRules[k].keywords, Lower(entity))
             && forall j :: 0 <= j < k ==> !AnyIn(PathwayRules[j].keywords, Lower(entity))
  {
    ClassifyIsFirstMatch(entity);
    PathwayRulesDistinct();
    FirstMatchPriority(PathwayRules, Lower(entity), 0, k);
    if InferPathway(entity) == PathwayName(PathwayRules[k].pathway) {
      InferenceTextInjective(Classify(entity), Found(PathwayRules[k].pathway));
    }
  }

  /** A lipid keyword decides the answer whatever else the entity mentions. */
  lemma LipidWins(entity: string, kw: string)
    requires kw in LipidKeywords && IsSubstring(kw, Lower(entity))
    ensures InferPathway(entity) == "Lipid Metabolism"
  {
    var j :| 0 <= j < |LipidKeywords| && LipidKeywords[j] == kw;
  }

  /** "Not available" comes back exactly when none of the 17 keywords occurs. */
  lemma InferPathwayNotAvailable(entity: string)
    ensures |AllPathwayKeywords| == 17
    ensures InferPathway(entity) == NotAvailable
        <==> forall j :: 0 <= j < |AllPathwayKeywords| ==> !IsSubstring(AllPathwayKeywords[j], Lower(entity))
  {
    var e := Lower(entity);
    if InferPathway(entity) == NotAvailable {
      InferenceTextInjective(Classify(entity), Unknown);
    }
    AnyInConcat(LipidKeywords, NeuroKeywords, e);
    AnyInConcat(LipidKeywords + NeuroKeywords, MatrixKeywords, e);
    AnyInConcat(LipidKeywords + NeuroKeywords + MatrixKeywords, DnaKeywords, e);
    AnyInConcat(LipidKeywords + NeuroKeywords + MatrixKeywords + DnaKeywords, ApoptosisKeywords, e);
    AnyInConcat(LipidKeywords + NeuroKeywords + MatrixKeywords + DnaKeywords + ApoptosisKeywords, ImmuneKeywords, e);
  }

  /** The classification sees the entity only through its lower-cased form. */
  lemma InferPathwayThroughLower(a: string, b: string)
    requires Lower(a) == Lower(b)
    ensures InferPathway(a) == InferPathway(b)
  {
    assert Classify(a) == Classify(b);
  }

  /** The classification does not depend on the case the entity is written in. */
  lemma InferPathwayCaseInsensitive(entity: string)
    ensures InferPathway(Lower(entity)) == InferPathway(entity)
    ensures InferPathway(Upper(entity)) == InferPathway(entity)
  {
    LowerIdempotent(entity);
    InferPathwayThroughLower(Lower(entity), entity);
    LowerOfUpper(entity);
    InferPathwayThroughLower(Upper(entity), entity);
  }

  // ---------------------------------------------------------------------
  // Google Scholar link
  // ---------------------------------------------------------------------

  const ScholarPrefix := "https://scholar.google.com/scholar?q="
  const ScholarSuffix := "+placenta+human"

  /**
   * `scholar_link`: the entity with its spaces turned into `+`, between the
   * fixed search prefix and suffix. No other character is encoded.
   */
  function ScholarLink(entity: string): (r: string)
    ensures |r| == |ScholarPrefix| + |entity| + |ScholarSuffix|
    ensures r[..|ScholarPrefix|] == ScholarPrefix
    ensures r[|ScholarPrefix| + |entity|..] == ScholarSuffix
    ensures forall i :: 0 <= i < |entity| ==>
              r[|ScholarPrefix| + i] == (if entity[i] == ' ' then '+' else entity[i])
    ensures ' ' !in r
  {
    var query := ReplaceChar(entity, ' ', '+');
    ReplaceCharRemoves(entity, ' ', '+');
    FixedPartsHaveNoSpace();
    Framed(ScholarPrefix, query, ScholarSuffix, ' ');
    ScholarPrefix + query + ScholarSuffix
  }

  lemma FixedPartsHaveNoSpace()
    ensures ' ' !in ScholarPrefix && ' ' !in ScholarSuffix
  {
  }

  /** The query segment of a link: what lies between the prefix and the suffix. */
  function ScholarQuery(link: string): (q: string)
    requires |ScholarPrefix| + |ScholarSuffix| <= |link|
    ensures |q| == |link| - |ScholarPrefix| - |ScholarSuffix|
  {
    link[|ScholarPrefix|..|link| - |ScholarSuffix|]
  }

  /** For an entity without `+`, turning the query's `+` back into spaces gives the entity. */
  lemma ScholarLinkRoundTrip(entity: string)
    requires '+' !in entity
    ensures ReplaceChar(ScholarQuery(ScholarLink(entity)), '+', ' ') == entity
  {
    var q := ScholarQuery(ScholarLink(entity));
    assert q == ReplaceChar(entity, ' ', '+');
    ReplaceCharInverse(entity, ' ', '+');
  }

  /** Entities without `+` get distinct links. */
  lemma ScholarLinkInjective(e1: string, e2: string)
    requires '+' !in e1 && '+' !in e2
    requires ScholarLink(e1) == ScholarLink(e2)
    ensures e1 == e2
  {
    ScholarLinkRoundTrip(e1);
    ScholarLinkRoundTrip(e2);
  }

  /** A `+` in the entity is not encoded, so "a b" and "a+b" share one link. */
  lemma ScholarLinkCollision()
    ensures ScholarLink("a b") == ScholarLink("a+b")
  {
    assert ReplaceChar("a b", ' ', '+') == "a+b";
    assert ReplaceChar("a+b", ' ', '+') == "a+b";
  }

  // ---------------------------------------------------------------------
  // Per-entity record
  // ---------------------------------------------------------------------

  /** One output row: the entity and the four fields found for it. */
  datatype EntityRecord = EntityRecord(
    entity: string,
    pubmedDoi: string,
    europePmcDoi: string,
    scholarLink: string,
    pathway: string)

  /**
   * `analyze_entity` with the two literature searches done by the caller:
   * `pubmed` is the (DOI, link) pair of the PubMed search and `europeDoi` the
   * DOI of the Europe PMC search. The PubMed link is not kept in the record.
   */
  function AnalyzeEntity(entity: string, pubmed: (string, string), europeDoi: string): (r: EntityRecord)
    ensures r.entity == entity && r.pubmedDoi == pubmed.0 && r.europePmcDoi == europeDoi
    ensures r.scholarLink == ScholarLink(entity) && r.pathway == InferPathway(entity)
    ensures r.pathway == NotAvailable || exists p :: p in PathwayGroups && r.pathway == PathwayName(p)
    ensures |r.scholarLink| == |ScholarPrefix| + |entity| + |ScholarSuffix| && ' ' !in r.scholarLink
  {
    EntityRecord(entity, pubmed.0, europeDoi, ScholarLink(entity), InferPathway(entity))
  }
}
