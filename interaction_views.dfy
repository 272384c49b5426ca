/** What the IV-compatibility page derives from the list without changing it: the severity
    badge of a record, the rows the search box keeps, and the sorted drug names offered by
    the name inputs' suggestion list. */
module InteractionViews {
  import opened Wrappers
  import opened Json
  import Text
  import AutoNote
  import opened Interactions

  // ---------------------------------------------------------------- severity

  datatype Severity = Severe | Moderate | Mild

  /** `Object.values(compat || {})`: an object's field values, an array's elements, a
      string's characters; nothing for a falsy value, a number or `true`. */
  function CompatValues(compat: Json): seq<Json> {
    if !Truthy(compat) then []
    else match compat
      case JObj(fs) => FieldValues(fs)
      case JArr(items) => items
      case JStr(s) => seq(|s|, i requires 0 <= i < |s| => JStr([s[i]]))
      case _ => []
  }

  /** `(v || '').toLowerCase()`: `None` where a truthy value that is not a string has no
      `toLowerCase` and the call throws. */
  function LowerValue(v: Json): (r: Option<string>)
    ensures r.None? <==> Truthy(v) && !v.JStr?
  {
    if !Truthy(v) then Some("") else if v.JStr? then Some(Text.Lower(v.s)) else None
  }

  /** Some value in `vs` reads `w` once lower-cased. */
  predicate SaysIn(vs: seq<Json>, w: string) {
    exists v :: v in vs && v.JStr? && Text.Lower(v.s) == w
  }

  /** Some value of the compatibility object reads `w` once lower-cased. */
  predicate Says(compat: Json, w: string) {
    SaysIn(CompatValues(compat), w)
  }

  /** `getSeverity`: any value reading `incompatible` in any case makes the record severe,
      otherwise any value reading `variable` makes it moderate, and everything else is
      mild. `None` when lower-casing a value throws. */
  function SeverityOf(compat: Json): (r: Option<Severity>)
    ensures r.None? <==> exists v :: v in CompatValues(compat) && Truthy(v) && !v.JStr?
    ensures r == Some(Severe) <==> r.Some? && Says(compat, "incompatible")
    ensures r == Some(Moderate) <==> r.Some? && !Says(compat, "incompatible") && Says(compat, "variable")
    ensures r == Some(Mild) <==> r.Some? && !Says(compat, "incompatible") && !Says(compat, "variable")
  {
    var vs := CompatValues(compat);
    if exists v :: v in vs && LowerValue(v).None? then None
    else
      var lowered := seq(|vs|, i requires 0 <= i < |vs| => LowerValue(vs[i]).value);
      assert forall w :: w in lowered && w != "" ==> exists v :: v in vs && v.JStr? && Text.Lower(v.s) == w;
      assert forall v :: v in vs && v.JStr? && Text.Lower(v.s) != "" ==> Text.Lower(v.s) in lowered by {
        forall v | v in vs && v.JStr? && Text.Lower(v.s) != "" ensures Text.Lower(v.s) in lowered {
          var i :| 0 <= i < |vs| && vs[i] == v;
          assert lowered[i] == Text.Lower(v.s);
        }
      }
      if "incompatible" in lowered then Some(Severe)
      else if "variable" in lowered then Some(Moderate)
      else Some(Mild)
  }

  /** The values `FieldValues` gives for a compatibility object built by the dialog. */
  function Picked(v: string): seq<Json> {
    if v == "" then [] else [JStr(v)]
  }

  lemma {:induction false} FieldValuesAppend(a: seq<(string, Json)>, b: seq<(string, Json)>)
    ensures FieldValues(a + b) == FieldValues(a) + FieldValues(b)
  {
    if a != [] {
      FieldValuesAppend(a[1..], b);
      assert (a + b)[1..] == a[1..] + b;
    } else {
      assert a + b == b;
    }
  }

  lemma {:induction false} RatedOne(k: string, v: string)
    ensures FieldValues(Rated(k, v)) == Picked(v)
  {
    if v != "" {
      assert FieldValues([(k, JStr(v))]) == [JStr(v)];
    }
  }

  lemma {:induction false} RatedValues(k1: string, k2: string, k3: string, k4: string, c: AutoNote.Compat)
    ensures FieldValues(Rated(k1, c.ySite) + Rated(k2, c.admixture) + Rated(k3, c.syringe) + Rated(k4, c.solution)) ==
      Picked(c.ySite) + Picked(c.admixture) + Picked(c.syringe) + Picked(c.solution)
  {
    var y, a, s, o := Rated(k1, c.ySite), Rated(k2, c.admixture), Rated(k3, c.syringe), Rated(k4, c.solution);
    FieldValuesAppend(y + a + s, o);
    FieldValuesAppend(y + a, s);
    FieldValuesAppend(y, a);
    RatedOne(k1, c.ySite);
    RatedOne(k2, c.admixture);
    RatedOne(k3, c.syringe);
    RatedOne(k4, c.solution);
  }

  /** The values of the dialog's compatibility object: the chosen selects' strings. */
  lemma {:induction false} CompatObjectValues(c: AutoNote.Compat)
    ensures CompatValues(CompatObject(c)) == Picked(c.ySite) + Picked(c.admixture) + Picked(c.syringe) + Picked(c.solution)
  {
    RatedValues("ySite", "admixture", "syringe", "solution", c);
  }

  lemma {:induction false} SaysInAppend(a: seq<Json>, b: seq<Json>, w: string)
    ensures SaysIn(a + b, w) <==> SaysIn(a, w) || SaysIn(b, w)
  {
    if SaysIn(a + b, w) {
      var v :| v in a + b && v.JStr? && Text.Lower(v.s) == w;
      assert v in a || v in b;
    }
    if SaysIn(a, w) {
      var v :| v in a && v.JStr? && Text.Lower(v.s) == w;
      assert v in a + b;
    }
    if SaysIn(b, w) {
      var v :| v in b && v.JStr? && Text.Lower(v.s) == w;
      assert v in a + b;
    }
  }

  lemma {:induction false} SaysInPicked(v: string, w: string)
    ensures SaysIn(Picked(v), w) <==> v != "" && Text.Lower(v) == w
  {
    if v != "" {
      assert JStr(v) in Picked(v);
    }
  }

  /** The dialog's compatibility object says `w` exactly when a chosen select does. */
  lemma {:induction false} SaysPicked(c: AutoNote.Compat, w: string)
    ensures Says(CompatObject(c), w) <==>
      (c.ySite != "" && Text.Lower(c.ySite) == w) || (c.admixture != "" && Text.Lower(c.admixture) == w) ||
      (c.syringe != "" && Text.Lower(c.syringe) == w) || (c.solution != "" && Text.Lower(c.solution) == w)
  {
    CompatObjectValues(c);
    var y, a, s, o := Picked(c.ySite), Picked(c.admixture), Picked(c.syringe), Picked(c.solution);
    SaysInAppend(y + a + s, o, w);
    SaysInAppend(y + a, s, w);
    SaysInAppend(y, a, w);
    SaysInPicked(c.ySite, w);
    SaysInPicked(c.admixture, w);
    SaysInPicked(c.syringe, w);
    SaysInPicked(c.solution, w);
  }

  /** A select value the dialog offers reads `incompatible` or `variable` once lower-cased
      exactly when it rates the route that way. */
  lemma {:induction false} LowerRating(v: string)
    requires !AutoNote.Rate(v).Other?
    ensures v != "" && Text.Lower(v) == "incompatible" <==> AutoNote.Rate(v) == AutoNote.Incompatible
    ensures v != "" && Text.Lower(v) == "variable" <==> AutoNote.Rate(v) == AutoNote.Variable
  {
    if v == "Incompatible" {
      assert Text.Lower(v) == "incompatible";
    } else if v == "Variable" {
      assert Text.Lower(v) == "variable";
    } else {
      assert |v| != 12 && |v| != 8;
    }
  }

  /** Lower-casing the values of the dialog's compatibility object never throws. */
  lemma {:induction false} DialogSeverityDefined(c: AutoNote.Compat)
    ensures SeverityOf(CompatObject(c)).Some?
  {
    CompatObjectValues(c);
    assert forall v :: v in CompatValues(CompatObject(c)) ==> v.JStr?;
  }

  /** With the dialog's own ratings, the compatibility object says `incompatible` or
      `variable` exactly when some route is rated that way, and nothing in it throws. */
  lemma {:induction false} SaysRatings(c: AutoNote.Compat)
    requires !AutoNote.AnyOther(AutoNote.Read(c))
    ensures Says(CompatObject(c), "incompatible") <==> AutoNote.Incompatible in AutoNote.Ratings(AutoNote.Read(c))
    ensures Says(CompatObject(c), "variable") <==> AutoNote.Variable in AutoNote.Ratings(AutoNote.Read(c))
  {
    SaysPicked(c, "incompatible");
    SaysPicked(c, "variable");
    LowerRating(c.ySite);
    LowerRating(c.admixture);
    LowerRating(c.syringe);
    LowerRating(c.solution);
  }

  /** For a record saved from the dialog with the dialog's own ratings, the list's badge
      agrees with the generated note's summary: severe exactly when the note reports an
      incompatible route, moderate exactly when it reports variable evidence. */
  lemma {:induction false} SeverityMatchesSummary(c: AutoNote.Compat)
    requires !AutoNote.AnyOther(AutoNote.Read(c))
    ensures SeverityOf(CompatObject(c)) == Some(Severe) <==>
      AutoNote.Summary(AutoNote.Read(c)) == AutoNote.AnyIncompatible
    ensures SeverityOf(CompatObject(c)) == Some(Moderate) <==>
      AutoNote.Summary(AutoNote.Read(c)) == AutoNote.AnyVariable
  {
    SaysRatings(c);
    DialogSeverityDefined(c);
    AutoNote.SummaryMeaning(AutoNote.Read(c));
  }

  // ---------------------------------------------------------------- search

  /** The text a row is searched in: both names and the note as a template literal
      writes them. */
  function RowText(x: Interaction): string {
    OptToStr(x.drugA) + " " + OptToStr(x.drugB) + " " + ToStr(x.note)
  }

  /** A record stays in the list when its text holds the search term, ignoring case. */
  predicate Hit(x: Interaction, term: string) {
    Text.Contains(Text.Lower(RowText(x)), Text.Lower(term))
  }

  /** `renderList`'s rows: the positions in the list of the records kept by the filter. */
  function Shown(list: seq<Interaction>, term: string): seq<nat> {
    if list == [] then []
    else Shown(list[..|list| - 1], term) + (if Hit(list[|list| - 1], term) then [|list| - 1] else [])
  }

  /** Every row is a matching record, and the rows follow the list's order, so none
      appears twice. */
  lemma {:induction false} ShownSound(list: seq<Interaction>, term: string)
    ensures forall k :: 0 <= k < |Shown(list, term)| ==>
      Shown(list, term)[k] < |list| && Hit(list[Shown(list, term)[k]], term)
    ensures forall k, l :: 0 <= k < l < |Shown(list, term)| ==> Shown(list, term)[k] < Shown(list, term)[l]
  {
    if list != [] {
      var p := list[..|list| - 1];
      ShownSound(p, term);
      var r := Shown(list, term);
      var q := Shown(p, term);
      forall k | 0 <= k < |r| ensures r[k] < |list| && Hit(list[r[k]], term) {
        if k < |q| {
          assert r[k] == q[k] && p[q[k]] == list[q[k]];
        }
      }
    }
  }

  /** Every matching record is a row. */
  lemma {:induction false} ShownComplete(list: seq<Interaction>, term: string)
    ensures forall i :: 0 <= i < |list| && Hit(list[i], term) ==> i in Shown(list, term)
  {
    if list != [] {
      var p := list[..|list| - 1];
      ShownComplete(p, term);
      forall i | 0 <= i < |p| && Hit(list[i], term) ensures i in Shown(list, term) {
        assert p[i] == list[i];
        assert i in Shown(p, term);
      }
    }
  }

  lemma {:induction false} ContainsEmpty(s: string)
    ensures Text.Contains(s, "")
  {
    assert s[..0] == "";
  }

  /** An empty search box keeps every record. */
  lemma {:induction false} EmptySearchShowsAll(list: seq<Interaction>)
    ensures |Shown(list, "")| == |list|
  {
    if list != [] {
      EmptySearchShowsAll(list[..|list| - 1]);
      ContainsEmpty(Text.Lower(RowText(list[|list| - 1])));
    }
  }

  // ---------------------------------------------------------------- suggested names

  /** Keys of the Python matrix format that are not drug names. */
  const IgnoreKeys: set<string> :=
    {"schemaVersion", "biDirectional", "compatibilityKeys", "lastUpdate", "0", "1", "2", "3"}

  /** A name the suggestion list offers: a non-empty string that is not an ignored key and
      does not read as a number (`looksNumeric` stands for `!isNaN`). */
  predicate Listed(o: Option<Json>, looksNumeric: string -> bool) {
    o.Some? && o.value.JStr? && o.value.s != "" && o.value.s !in IgnoreKeys && !looksNumeric(o.value.s)
  }

  function NamesOf(x: Interaction, looksNumeric: string -> bool): set<string> {
    (if Listed(x.drugA, looksNumeric) then {x.drugA.value.s} else {}) +
    (if Listed(x.drugB, looksNumeric) then {x.drugB.value.s} else {})
  }

  /** The `Set` of names `updateDrugDatalist` collects. */
  function NameSet(list: seq<Interaction>, looksNumeric: string -> bool): set<string> {
    if list == [] then {}
    else NameSet(list[..|list| - 1], looksNumeric) + NamesOf(list[|list| - 1], looksNumeric)
  }

  /** A name is collected exactly when some record carries it as drug A or drug B and it
      passes the filter. */
  lemma {:induction false} NameSetMeaning(list: seq<Interaction>, looksNumeric: string -> bool, n: string)
    ensures n in NameSet(list, looksNumeric) <==>
      exists i :: 0 <= i < |list| && n in NamesOf(list[i], looksNumeric)
  {
    if list != [] {
      var p := list[..|list| - 1];
      NameSetMeaning(p, looksNumeric, n);
      assert forall i :: 0 <= i < |p| ==> p[i] == list[i];
      if n in NamesOf(list[|list| - 1], looksNumeric) {
        assert list[|list| - 1] == list[|list| - 1];
      }
    }
  }

  /** Strictly increasing in JavaScript's string order: sorted and without repeats. */
  predicate StrictlySorted(s: seq<string>) {
    forall i, j :: 0 <= i < j < |s| ==> Text.LexLess(s[i], s[j])
  }

  /** Adding a name to a sorted list of distinct names. */
  function Insert(s: seq<string>, x: string): (r: seq<string>)
    requires StrictlySorted(s)
    ensures StrictlySorted(r)
    ensures forall y :: y in r <==> y in s || y == x
  {
    if s == [] then [x]
    else if s[0] == x then s
    else if Text.LexLess(x, s[0]) then
      assert forall j :: 0 < j < |s| ==> Text.LexLess(x, s[j]) by {
        forall j | 0 < j < |s| ensures Text.LexLess(x, s[j]) {
          Text.LexLessTransitive(x, s[0], s[j]);
        }
      }
      [x] + s
    else
      Text.LexLessTotal(x, s[0]);
      var t := Insert(s[1..], x);
      assert forall y :: y in t ==> Text.LexLess(s[0], y) by {
        forall y | y in t ensures Text.LexLess(s[0], y) {
          if y != x {
            var j :| 0 <= j < |s[1..]| && s[1..][j] == y;
            assert s[j + 1] == y;
          }
        }
      }
      [s[0]] + t
  }
}
