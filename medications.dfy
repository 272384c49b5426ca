/** One chemotherapy drug record of the medication editor: the letter bucket it is filed
    under, the alias-tolerant normalisation applied on load, the record written on export,
    and the record built from the edit form on save. */
module Medications {
  import opened Wrappers
  import opened Json
  import Text
  import MedicationCodecs

  /** A drug as the editor keeps it in memory. The scalar fields hold whatever truthy value
      was loaded (or the empty string); the list fields hold whatever truthy value was loaded
      (or the empty array). Only a drug saved from the form has `monitoring`. */
  datatype Drug = Drug(
    name: Json,
    classification: Json,
    route: Json,
    extravasationRisk: Json,
    mechanism: Json,
    indications: seq<Json>,
    warnings: Json,
    nursingInfo: Json,
    sideEffects: Json,
    premedications: Json,
    requiredProphylaxis: Json,
    supportiveCare: Json,
    source: Json,
    monitoring: Option<Json>)

  // ---------------------------------------------------------------- group key

  /** A bucket letter: a digit or an upper-case ASCII letter. Everything else goes to `#`. */
  predicate IsKeyChar(c: char) {
    '0' <= c <= '9' || 'A' <= c <= 'Z'
  }

  /** `getGroupKey` on a string name: the first character of the trimmed name, upper-cased,
      when it is a digit or a letter; `#` otherwise (also for an empty or blank name). */
  function TextKey(name: string): (k: char)
    ensures IsKeyChar(k) || k == '#'
    ensures k != '#' <==> Text.Trim(name) != "" && IsKeyChar(Text.UpperChar(Text.Trim(name)[0]))
    ensures k != '#' ==> k == Text.UpperChar(Text.Trim(name)[0])
  {
    if name == "" then '#'
    else
      var t := Text.Trim(name);
      if t != "" && IsKeyChar(Text.UpperChar(t[0])) then Text.UpperChar(t[0]) else '#'
  }

  /** `getGroupKey(drug.name)`: a missing or falsy name is filed under `#`; a string name
      by its first character; any other truthy name makes `trim` throw (`None`). */
  function GroupKey(name: Option<Json>): (r: Option<char>)
    ensures r.None? <==> Present(name) && !name.value.JStr?
    ensures r.Some? ==> IsKeyChar(r.value) || r.value == '#'
  {
    if !Present(name) then Some('#')
    else if name.value.JStr? then Some(TextKey(name.value.s))
    else None
  }

  /** The bucket of a loaded drug; reading `name` of `null` throws. */
  function KeyOf(drug: Json): Option<char> {
    if drug.JNull? then None else GroupKey(Member(drug, "name"))
  }

  /** A name that starts (after any whitespace) with a letter or digit is filed under that
      character in upper case; the rest of the name does not matter. */
  lemma {:induction false} TextKeyFirst(c: char, rest: string)
    requires !Text.IsWhite(c)
    ensures TextKey([c] + rest) == if IsKeyChar(Text.UpperChar(c)) then Text.UpperChar(c) else '#'
  {
    var s := [c] + rest;
    assert Text.TrimStart(s) == s;
    var r := Text.TrimEnd(s);
    Text.TrimEndCut(s);
    assert r[0] == s[0];
  }

  /** Leading whitespace does not change the bucket. */
  lemma {:induction false} TextKeyPadding(c: char, name: string)
    requires Text.IsWhite(c)
    ensures TextKey([c] + name) == TextKey(name)
  {
    Text.TrimWhitePrefix(c, name);
    if name == "" {
      assert Text.Trim([c]) == Text.Trim("");
    }
  }

  /** The bucket ignores the case of the first letter. */
  lemma {:induction false} TextKeyCase(c: char, rest: string)
    requires 'a' <= c <= 'z'
    ensures TextKey([c] + rest) == TextKey([Text.UpperChar(c)] + rest)
  {
    TextKeyFirst(c, rest);
    TextKeyFirst(Text.UpperChar(c), rest);
  }

  /** Filing a drug named by its own bucket letter gives that letter back. */
  lemma {:induction false} TextKeyOfKey(k: char)
    requires IsKeyChar(k)
    ensures TextKey([k]) == k
  {
    TextKeyFirst(k, "");
    assert [k] + "" == [k];
  }

  // ---------------------------------------------------------------- normalisation

  /** A scalar field as normalisation leaves it: a truthy value or the empty string (that
      is, any string or any other truthy value). */
  predicate TextField(j: Json) {
    j.JStr? || Truthy(j)
  }

  /** What every normalised drug satisfies: scalar fields truthy or empty, list fields truthy. */
  predicate Canonical(d: Drug) {
    TextField(d.name) && TextField(d.classification) && TextField(d.route) &&
    TextField(d.extravasationRisk) && TextField(d.source) &&
    Truthy(d.mechanism) && Truthy(d.warnings) && Truthy(d.nursingInfo) &&
    Truthy(d.sideEffects) && Truthy(d.premedications) &&
    Truthy(d.requiredProphylaxis) && Truthy(d.supportiveCare)
  }

  /** The loaded `indication`: an array is kept, a truthy scalar becomes a one-element list,
      anything else an empty list. */
  function IndicationList(o: Option<Json>): (r: seq<Json>)
    ensures o.Some? && o.value.JArr? ==> r == o.value.items
    ensures !(o.Some? && o.value.JArr?) && Present(o) ==> r == [o.value]
    ensures !(o.Some? && o.value.JArr?) && !Present(o) ==> r == []
  {
    if o.Some? && o.value.JArr? then o.value.items
    else if Present(o) then [o.value]
    else []
  }

  /** A field read under one name: a truthy value is kept, anything else (absent, `null`,
      `false`, `0`, `""`) gives the default. */
  predicate Kept(r: Json, a: Option<Json>, default: Json) {
    (Present(a) ==> r == a.value) && (!Present(a) ==> r == default)
  }

  /** A field read under two names: a truthy value under the first wins, then a truthy
      value under the second, and otherwise the default. */
  predicate Aliased(r: Json, first: Option<Json>, second: Option<Json>, default: Json) {
    (Present(first) ==> r == first.value) &&
    (!Present(first) && Present(second) ==> r == second.value) &&
    (!Present(first) && !Present(second) ==> r == default)
  }

  /** `normalizeDrug`: every field present, `routes` before `route`, snake_case aliases before
      camelCase ones, scalar fields defaulting to `""`, list fields to `[]`, and no
      `monitoring`. */
  function NormalizeDrug(d: Json): (r: Drug)
    ensures Canonical(r) && r.monitoring.None?
    ensures Kept(r.name, Member(d, "name"), JStr(""))
    ensures Kept(r.classification, Member(d, "class"), JStr(""))
    ensures Aliased(r.route, Member(d, "routes"), Member(d, "route"), JStr(""))
    ensures Aliased(r.extravasationRisk, Member(d, "extravasation_risk"),
                    Member(d, "extravasationRisk"), JStr(""))
    ensures Kept(r.mechanism, Member(d, "mechanism"), JArr([]))
    ensures r.indications == IndicationList(Member(d, "indication"))
    ensures Kept(r.warnings, Member(d, "warnings"), JArr([]))
    ensures Kept(r.nursingInfo, Member(d, "nursingInfo"), JArr([]))
    ensures Aliased(r.sideEffects, Member(d, "side_effects"), Member(d, "sideEffects"), JArr([]))
    ensures Kept(r.premedications, Member(d, "premedications"), JArr([]))
    ensures Aliased(r.requiredProphylaxis, Member(d, "required_prophylaxis"),
                    Member(d, "requiredProphylaxis"), JArr([]))
    ensures Aliased(r.supportiveCare, Member(d, "supportive_care"),
                    Member(d, "supportiveCare"), JArr([]))
    ensures Kept(r.source, Member(d, "source"), JStr(""))
  {
    Drug(
      OrElse(Member(d, "name"), JStr("")),
      OrElse(Member(d, "class"), JStr("")),
      OrElse(Either(Member(d, "routes"), Member(d, "route")), JStr("")),
      OrElse(Either(Member(d, "extravasation_risk"), Member(d, "extravasationRisk")), JStr("")),
      OrElse(Member(d, "mechanism"), JArr([])),
      IndicationList(Member(d, "indication")),
      OrElse(Member(d, "warnings"), JArr([])),
      OrElse(Member(d, "nursingInfo"), JArr([])),
      OrElse(Either(Member(d, "side_effects"), Member(d, "sideEffects")), JArr([])),
      OrElse(Member(d, "premedications"), JArr([])),
      OrElse(Either(Member(d, "required_prophylaxis"), Member(d, "requiredProphylaxis")), JArr([])),
      OrElse(Either(Member(d, "supportive_care"), Member(d, "supportiveCare")), JArr([])),
      OrElse(Member(d, "source"), JStr("")),
      None)
  }

  // ---------------------------------------------------------------- export

  /** The `indication` written on export: a lone indication on its own, otherwise the list. */
  function ExportIndication(inds: seq<Json>): (r: Json)
    ensures |inds| == 1 ==> r == inds[0]
    ensures |inds| != 1 ==> r == JArr(inds)
  {
    if |inds| == 1 then inds[0] else JArr(inds)
  }

  /** The first fields of an exported record: identity and administration. */
  function ExportHead(d: Drug): seq<(string, Json)> {
    [("name", d.name), ("class", d.classification), ("routes", d.route),
     ("indication", ExportIndication(d.indications)),
     ("extravasation_risk", d.extravasationRisk), ("side_effects", d.sideEffects)]
  }

  /** The middle fields of an exported record: supportive lists, source and mechanism. */
  function ExportBody(d: Drug): seq<(string, Json)> {
    [("premedications", d.premedications), ("required_prophylaxis", d.requiredProphylaxis),
     ("supportive_care", d.supportiveCare), ("source", d.source), ("mechanism", d.mechanism)]
  }

  /** The last fields of an exported record; `monitoring` only when the drug has one. */
  function ExportTail(d: Drug): seq<(string, Json)> {
    (if d.monitoring.Some? then [("monitoring", d.monitoring.value)] else []) +
    [("warnings", d.warnings), ("nursingInfo", d.nursingInfo)]
  }

  /** The record `downloadJSON` writes for one drug, with the file's own key names. */
  function ExportDrug(d: Drug): (r: Json)
    ensures r.JObj? && r.fields == ExportHead(d) + ExportBody(d) + ExportTail(d)
  {
    JObj(ExportHead(d) + ExportBody(d) + ExportTail(d))
  }

  /** A lone indication survives export only when it is truthy and not itself an array. */
  predicate LoneIndicationOk(d: Drug) {
    |d.indications| == 1 ==> Truthy(d.indications[0]) && !d.indications[0].JArr?
  }

  /** The identity and administration fields read back from an exported record. */
  lemma {:induction false} ExportHeadReads(d: Drug)
    ensures var r := ExportDrug(d);
      Member(r, "name") == Some(d.name) && Member(r, "class") == Some(d.classification) &&
      Member(r, "routes") == Some(d.route) && Member(r, "route") == None &&
      Member(r, "indication") == Some(ExportIndication(d.indications)) &&
      Member(r, "extravasation_risk") == Some(d.extravasationRisk) &&
      Member(r, "extravasationRisk") == None
  {
    var fs := ExportDrug(d).fields;
    GetAt(fs, 0, "name");
    GetAt(fs, 1, "class");
    GetAt(fs, 2, "routes");
    GetAt(fs, 3, "indication");
    GetAt(fs, 4, "extravasation_risk");
    GetNone(fs, "route");
    GetNone(fs, "extravasationRisk");
  }

  /** The list fields read back from an exported record under their snake_case names. */
  lemma {:induction false} ExportBodyReads(d: Drug)
    ensures var r := ExportDrug(d);
      Member(r, "side_effects") == Some(d.sideEffects) &&
      Member(r, "premedications") == Some(d.premedications) &&
      Member(r, "required_prophylaxis") == Some(d.requiredProphylaxis) &&
      Member(r, "supportive_care") == Some(d.supportiveCare)
  {
    var fs := ExportDrug(d).fields;
    GetAt(fs, 5, "side_effects");
    GetAt(fs, 6, "premedications");
    GetAt(fs, 7, "required_prophylaxis");
    GetAt(fs, 8, "supportive_care");
  }

  /** The remaining fields read back from an exported record. */
  lemma {:induction false} ExportTailReads(d: Drug)
    ensures var r := ExportDrug(d);
      Member(r, "source") == Some(d.source) && Member(r, "mechanism") == Some(d.mechanism) &&
      Member(r, "warnings") == Some(d.warnings) && Member(r, "nursingInfo") == Some(d.nursingInfo)
  {
    var fs := ExportDrug(d).fields;
    var m := if d.monitoring.Some? then 1 else 0;
    GetAt(fs, 9, "source");
    GetAt(fs, 10, "mechanism");
    GetAt(fs, 11 + m, "warnings");
    GetAt(fs, 12 + m, "nursingInfo");
  }

  /** Export then normalise gives back the drug, apart from `monitoring`, provided it is
      canonical and a lone indication is truthy and not an array. */
  lemma {:induction false} ExportNormalizeRoundTrip(d: Drug)
    requires Canonical(d) && LoneIndicationOk(d)
    ensures NormalizeDrug(ExportDrug(d)) == d.(monitoring := None)
  {
    ExportHeadReads(d);
    ExportBodyReads(d);
    ExportTailReads(d);
  }

  /** Normalising an exported normalised drug changes nothing. */
  lemma {:induction false} NormalizeExportIdempotent(j: Json)
    requires LoneIndicationOk(NormalizeDrug(j))
    ensures NormalizeDrug(ExportDrug(NormalizeDrug(j))) == NormalizeDrug(j)
  {
    ExportNormalizeRoundTrip(NormalizeDrug(j));
  }

  // ---------------------------------------------------------------- the edit form

  /** The edit form: the single-line inputs and the raw text of each text area. */
  datatype DrugForm = DrugForm(
    name: string,
    classification: string,
    route: string,
    risk: string,
    mechanism: string,
    indications: string,
    monitoring: string,
    warnings: string,
    nursingInfo: string,
    source: string,
    sideEffects: string,
    premedications: string,
    prophylaxis: string,
    supportive: string)

  /** The drug `saveDrugFromModal` builds: inputs as typed, text areas one entry per
      non-blank trimmed line, the structured lists through their line codecs. */
  function DrugFromForm(f: DrugForm): Drug {
    var inds := Text.Lines(f.indications);
    Drug(
      JStr(f.name), JStr(f.classification), JStr(f.route), JStr(f.risk),
      AreaList(f.mechanism),
      StrList(inds),
      AreaList(f.warnings),
      AreaList(f.nursingInfo),
      JArr(MedicationCodecs.ParseList(MedicationCodecs.SideEffects, Text.Lines(f.sideEffects))),
      JArr(MedicationCodecs.ParseList(MedicationCodecs.Premedications, Text.Lines(f.premedications))),
      JArr(MedicationCodecs.ParseList(MedicationCodecs.TypeNotes, Text.Lines(f.prophylaxis))),
      JArr(MedicationCodecs.ParseList(MedicationCodecs.TypeNotes, Text.Lines(f.supportive))),
      JStr(f.source),
      Some(AreaList(f.monitoring)))
  }

  /** A drug saved from the form is canonical. */
  lemma {:induction false} FormDrugCanonical(f: DrugForm)
    ensures Canonical(DrugFromForm(f))
  {
    var d := DrugFromForm(f);
    assert TextField(d.name) && TextField(d.classification) && TextField(d.route) &&
      TextField(d.extravasationRisk) && TextField(d.source);
    assert Truthy(d.mechanism) && Truthy(d.warnings) && Truthy(d.nursingInfo);
    assert Truthy(d.sideEffects) && Truthy(d.premedications) &&
      Truthy(d.requiredProphylaxis) && Truthy(d.supportiveCare);
  }

  /** A lone indication line of the form is a non-empty string. */
  lemma {:induction false} FormIndicationOk(f: DrugForm)
    ensures LoneIndicationOk(DrugFromForm(f))
  {
    var inds := Text.Lines(f.indications);
    assert DrugFromForm(f).indications == StrList(inds);
    if |inds| == 1 {
      assert StrList(inds)[0] == JStr(inds[0]) && inds[0] != "";
    }
  }

  /** A saved drug survives export and re-import except for its `monitoring` list. */
  lemma {:induction false} SavedDrugRoundTrip(f: DrugForm)
    ensures NormalizeDrug(ExportDrug(DrugFromForm(f))) == DrugFromForm(f).(monitoring := None)
  {
    FormDrugCanonical(f);
    FormIndicationOk(f);
    ExportNormalizeRoundTrip(DrugFromForm(f));
  }
}
