/** The IV-compatibility editor's generated note: a three-tier decision table over the four
    route ratings (solution, Y-site, syringe, admixture). An empty rating counts as
    `"No Data"`; the note is the core sentence, the modifier sentences and the summary,
    separated by single spaces. The decisions are made on `Rating` values and turned into
    wording only at the end. */
module AutoNote {
  import Text

  /** The four selects of the dialog, as typed: `""` when nothing is chosen. */
  datatype Compat = Compat(ySite: string, admixture: string, syringe: string, solution: string)

  /** A rating after `v || "No Data"`: one of the dialog's four values, or any other text. */
  datatype Rating = Compatible | Incompatible | Variable | NoData | Other(text: string)

  /** Reading one select: empty and `"No Data"` both mean no data, each of the other three
      values its own rating, and any other text stays as it is. */
  function Rate(v: string): (r: Rating)
    ensures r == NoData <==> v == "" || v == "No Data"
    ensures r == Compatible <==> v == "Compatible"
    ensures r == Incompatible <==> v == "Incompatible"
    ensures r == Variable <==> v == "Variable"
    ensures r.Other? <==> v !in {"", "No Data", "Compatible", "Incompatible", "Variable"}
    ensures r.Other? ==> r.text == v
  {
    if v == "" || v == "No Data" then NoData
    else if v == "Compatible" then Compatible
    else if v == "Incompatible" then Incompatible
    else if v == "Variable" then Variable
    else Other(v)
  }

  /** The four routes' ratings. */
  datatype Routes = Routes(solution: Rating, ySite: Rating, syringe: Rating, admixture: Rating)

  /** Reading the dialog's four selects: each route takes the rating of its own select. */
  function Read(c: Compat): (r: Routes)
    ensures r.solution == Rate(c.solution) && r.ySite == Rate(c.ySite)
    ensures r.syringe == Rate(c.syringe) && r.admixture == Rate(c.admixture)
    ensures c.ySite == "" && c.admixture == "" && c.syringe == "" && c.solution == "" ==>
      r == Routes(NoData, NoData, NoData, NoData)
  {
    Routes(Rate(c.solution), Rate(c.ySite), Rate(c.syringe), Rate(c.admixture))
  }

  /** The ratings of the four routes. */
  function Ratings(r: Routes): set<Rating> {
    {r.solution, r.ySite, r.syringe, r.admixture}
  }

  /** Some route has a rating outside the dialog's four values. */
  predicate AnyOther(r: Routes) {
    r.solution.Other? || r.ySite.Other? || r.syringe.Other? || r.admixture.Other?
  }

  // ---------------------------------------------------------------- tier 1: core sentence

  datatype CoreKind = CoreCompatible | CoreIncompatible | CoreVariable | CoreNoData | CoreUnavailable

  /** The core sentence, chosen by the Y-site rating first. */
  function Core(c: Routes): CoreKind {
    var y := c.ySite;
    if y == Compatible then CoreCompatible
    else if y == Incompatible then CoreIncompatible
    else if y == Variable then CoreVariable
    else if c == Routes(NoData, NoData, NoData, NoData) then CoreNoData
    else CoreUnavailable
  }

  /** Each core sentence in terms of the ratings: a known Y-site rating names its sentence,
      the "no data" wording needs all four ratings missing, and any other case gets the
      "unavailable" sentence. */
  lemma {:induction false} CoreMeaning(c: Routes)
    ensures Core(c) == CoreCompatible <==> c.ySite == Compatible
    ensures Core(c) == CoreIncompatible <==> c.ySite == Incompatible
    ensures Core(c) == CoreVariable <==> c.ySite == Variable
    ensures Core(c) == CoreNoData <==> c == Routes(NoData, NoData, NoData, NoData)
    ensures Core(c) == CoreUnavailable <==>
      c.ySite !in {Compatible, Incompatible, Variable} && c != Routes(NoData, NoData, NoData, NoData)
  {
  }

  /** A known Y-site rating decides the core sentence whatever the other routes say. */
  lemma {:induction false} CoreByYSite(c: Routes, solution: Rating, syringe: Rating, admixture: Rating)
    requires c.ySite in {Compatible, Incompatible, Variable}
    ensures Core(c) == Core(Routes(solution, c.ySite, syringe, admixture))
  {
  }

  function CoreText(k: CoreKind): string {
    match k
    case CoreCompatible => "Y-site compatible — co-administration may proceed if no precipitation is observed."
    case CoreIncompatible => "Y-site incompatible — MUST use a separate line regardless of other routes."
    case CoreVariable => "Y-site variable — co-administration requires close monitoring for precipitation or color change."
    case CoreNoData => "No compatibility data available — use a dedicated line for safety."
    case CoreUnavailable => "Y-site data unavailable — prefer a separate line unless other routes strongly support compatibility."
  }

  // ---------------------------------------------------------------- tier 2: modifiers

  /** One modifier sentence: on the solution (with the rating it reports), on the syringe,
      or on the admixture (with the rating it reports). */
  datatype Modifier = SolutionNote(rating: Rating) | SyringeNote | AdmixtureNote(rating: Rating)

  /** The place of each kind of sentence in the note. */
  function Rank(m: Modifier): nat {
    match m
    case SolutionNote(_) => 0
    case SyringeNote => 1
    case AdmixtureNote(_) => 2
  }

  /** The modifier sentences, solution first, then syringe, then admixture. */
  function Modifiers(c: Routes): seq<Modifier> {
    var sol, adm := c.solution, c.admixture;
    var a := if sol in {Compatible, Incompatible, Variable} then [SolutionNote(sol)] else [];
    var b := if c.syringe == Incompatible then [SyringeNote] else [];
    var d := if adm in {Incompatible, Variable} then [AdmixtureNote(adm)] else [];
    a + b + d
  }

  /** The modifiers come in their fixed order: at most one solution sentence (for a known
      rating), the syringe sentence only when the syringe is incompatible, and at most one
      admixture sentence (incompatible or variable); nothing else. */
  lemma {:induction false} ModifiersMeaning(c: Routes)
    ensures var r := Modifiers(c);
      forall i, j :: 0 <= i < j < |r| ==> Rank(r[i]) < Rank(r[j])
    ensures SolutionNote(c.solution) in Modifiers(c) <==> c.solution in {Compatible, Incompatible, Variable}
    ensures SyringeNote in Modifiers(c) <==> c.syringe == Incompatible
    ensures AdmixtureNote(c.admixture) in Modifiers(c) <==> c.admixture in {Incompatible, Variable}
    ensures var r := Modifiers(c);
      forall i :: 0 <= i < |r| ==> r[i] in {SolutionNote(c.solution), SyringeNote, AdmixtureNote(c.admixture)}
  {
  }

  /** The wording of one modifier; the solution sentences name the drug. */
  function ModifierText(m: Modifier, drugName: string): string {
    match m
    case SolutionNote(r) =>
      if r == Compatible then "Solution: Compatible — this medication is compatible with " + drugName + "."
      else if r == Incompatible then "Solution: Incompatible — do not prepare or infuse this medication in " + drugName + "."
      else "Solution: Variable — use caution when preparing this medication in " + drugName + "."
    case SyringeNote => "Do not mix in syringe due to syringe-level incompatibility."
    case AdmixtureNote(r) =>
      if r == Incompatible then "Do not combine in admixture due to bag-level incompatibility."
      else "Admixture data is variable — avoid combining unless clearly indicated."
  }

  function ModifierTexts(ms: seq<Modifier>, drugName: string): seq<string> {
    seq(|ms|, i requires 0 <= i < |ms| => ModifierText(ms[i], drugName))
  }

  // ---------------------------------------------------------------- tier 3: summary

  datatype SummaryKind = AnyIncompatible | AllCompatible | AnyVariable | MissingData | MixedData

  /** The summary, by precedence: any incompatible route; all four compatible; any variable
      route; only compatible and missing ratings; otherwise the "limited or mixed" fallback. */
  function Summary(c: Routes): SummaryKind {
    var vs := Ratings(c);
    if Incompatible in vs then AnyIncompatible
    else if c == Routes(Compatible, Compatible, Compatible, Compatible) then AllCompatible
    else if Variable in vs then AnyVariable
    else if forall v | v in vs :: v in {Compatible, NoData} then MissingData
    else MixedData
  }

  /** Each summary in terms of the set of ratings; the fallback is reached only through a
      rating outside the four known values. */
  lemma {:induction false} SummaryMeaning(c: Routes)
    ensures Summary(c) == AnyIncompatible <==> Incompatible in Ratings(c)
    ensures Summary(c) == AllCompatible <==> c == Routes(Compatible, Compatible, Compatible, Compatible)
    ensures Summary(c) == AnyVariable <==> Incompatible !in Ratings(c) && Variable in Ratings(c)
    ensures Summary(c) == MissingData <==>
      Incompatible !in Ratings(c) && Variable !in Ratings(c) && NoData in Ratings(c) && !AnyOther(c)
    ensures Summary(c) == MixedData <==> Incompatible !in Ratings(c) && Variable !in Ratings(c) && AnyOther(c)
  {
  }

  function SummaryText(k: SummaryKind): string {
    match k
    case AnyIncompatible => "Overall: At least one route is incompatible — separate-line administration is preferred."
    case AllCompatible => "Overall: All available routes show compatibility."
    case AnyVariable => "Overall: Mixed or variable evidence — monitor closely if co-administered."
    case MissingData => "Overall: Compatible, but missing data warrants caution."
    case MixedData => "Overall: Limited or mixed information — safest to use a dedicated line."
  }

  // ---------------------------------------------------------------- the note

  /** What stands between the core and the summary: the modifier sentences joined by single
      spaces, with one space on either side. */
  function Middle(texts: seq<string>): string {
    " " + Text.Join(texts, " ") + " "
  }

  /** `generateAutoNote(compat, drugName)`. */
  function Note(c: Compat, drugName: string): string {
    var r := Read(c);
    CoreText(Core(r)) + Middle(ModifierTexts(Modifiers(r), drugName)) + SummaryText(Summary(r))
  }

  /** `updateAutoNote`: the note for the dialog's selects, naming the typed first drug or
      `"Drug A"` when that field is empty. */
  function FormNote(c: Compat, drugAInput: string): string {
    Note(c, if drugAInput == "" then "Drug A" else drugAInput)
  }

  /** With no modifier sentence the core and the summary are separated by two spaces. */
  lemma {:induction false} NoModifiersDoubleSpace(c: Compat, drugName: string)
    requires Modifiers(Read(c)) == []
    ensures Note(c, drugName) == CoreText(Core(Read(c))) + "  " + SummaryText(Summary(Read(c)))
  {
    assert ModifierTexts([], drugName) == [];
    assert Middle([]) == "  ";
  }

  /** A dialog with nothing selected yields the "no data" core, no modifier (so two spaces
      before the summary) and the "compatible, but missing data" summary. */
  lemma {:induction false} AllMissingNote()
    ensures var r := Read(Compat("", "", "", ""));
      Core(r) == CoreNoData && Modifiers(r) == [] && Summary(r) == MissingData
  {
    assert Read(Compat("", "", "", "")) == Routes(NoData, NoData, NoData, NoData);
  }

  /** Every route compatible: the compatible core, the compatible solution sentence and the
      "all routes" summary. */
  lemma {:induction false} AllCompatibleNote()
    ensures var r := Read(Compat("Compatible", "Compatible", "Compatible", "Compatible"));
      Modifiers(r) == [SolutionNote(Compatible)] && Core(r) == CoreCompatible && Summary(r) == AllCompatible
  {
    assert Read(Compat("Compatible", "Compatible", "Compatible", "Compatible")) ==
      Routes(Compatible, Compatible, Compatible, Compatible);
  }

  /** A select left empty and one set to `"No Data"` give the same note. */
  lemma {:induction false} EmptyIsNoData(c: Compat, drugName: string)
    ensures Note(c.(ySite := ""), drugName) == Note(c.(ySite := "No Data"), drugName)
    ensures Note(c.(admixture := ""), drugName) == Note(c.(admixture := "No Data"), drugName)
    ensures Note(c.(syringe := ""), drugName) == Note(c.(syringe := "No Data"), drugName)
    ensures Note(c.(solution := ""), drugName) == Note(c.(solution := "No Data"), drugName)
  {
    assert Read(c.(ySite := "")) == Read(c.(ySite := "No Data"));
    SameReadSameNote(c.(ySite := ""), c.(ySite := "No Data"), drugName);
    assert Read(c.(admixture := "")) == Read(c.(admixture := "No Data"));
    SameReadSameNote(c.(admixture := ""), c.(admixture := "No Data"), drugName);
    assert Read(c.(syringe := "")) == Read(c.(syringe := "No Data"));
    SameReadSameNote(c.(syringe := ""), c.(syringe := "No Data"), drugName);
    assert Read(c.(solution := "")) == Read(c.(solution := "No Data"));
    SameReadSameNote(c.(solution := ""), c.(solution := "No Data"), drugName);
  }

  /** The note depends on the selects only through their ratings. */
  lemma {:induction false} SameReadSameNote(c: Compat, d: Compat, drugName: string)
    requires Read(c) == Read(d)
    ensures Note(c, drugName) == Note(d, drugName)
  {
  }
}
