/** The IV-compatibility list `INTERACTIONS`: its records, the two file formats it loads
    (a saved list, or the nested matrix drug A -> drug B -> entry), the nested matrix it
    exports, and the validation of the dialog's save. The page state in `InteractionStore`
    is proved against these functions. */
module Interactions {
  import opened Wrappers
  import opened Json
  import Text
  import opened Lists
  import AutoNote

  /** One record of the list. The names and the time stamp may be undefined in a loaded
      list; the other three fields always hold a value. */
  datatype Interaction = Interaction(
    drugA: Option<Json>,
    drugB: Option<Json>,
    compatibility: Json,
    note: Json,
    source: Json,
    lastUpdated: Option<Json>)

  /** What a load leaves: the new list, and whether it finished without throwing. */
  datatype Loaded = Loaded(list: seq<Interaction>, ok: bool)

  // ---------------------------------------------------------------- the saved-list format

  /** One element of a saved list: the names and time stamp as found, `compatibility`
      defaulting to `{}`, the note taken from `note`, else from the older `mechanism`, else
      empty, and the source defaulting to empty. Reading a property of `null` throws. */
  function ListRecord(item: Json): (r: Option<Interaction>)
    ensures r.None? <==> item == JNull
    ensures r.Some? ==>
      r.value.drugA == Member(item, "drugA") && r.value.drugB == Member(item, "drugB") &&
      r.value.lastUpdated == Member(item, "lastUpdated")
    ensures r.Some? ==> (Truthy(r.value.compatibility) &&
      (Truthy(r.value.note) <==> Present(Member(item, "note")) || Present(Member(item, "mechanism"))))
    ensures r.Some? && Present(Member(item, "note")) ==> r.value.note == Member(item, "note").value
    ensures r.Some? && !Present(Member(item, "note")) && Present(Member(item, "mechanism")) ==>
      r.value.note == Member(item, "mechanism").value
  {
    if item == JNull then None
    else Some(Interaction(
      Member(item, "drugA"),
      Member(item, "drugB"),
      OrElse(Member(item, "compatibility"), JObj([])),
      OrElse(Either(Member(item, "note"), Member(item, "mechanism")), JStr("")),
      OrElse(Member(item, "source"), JStr("")),
      Member(item, "lastUpdated")))
  }

  /** `json.map(...)` over a saved list: every element read in order, or a throw when one
      of them is `null`. */
  function ListLoad(items: seq<Json>): (r: Option<seq<Interaction>>)
    ensures r.None? <==> JNull in items
    ensures r.Some? ==> |r.value| == |items| && forall i :: 0 <= i < |items| ==> Some(r.value[i]) == ListRecord(items[i])
  {
    if JNull in items then None
    else Some(seq(|items|, i requires 0 <= i < |items| => ListRecord(items[i]).value))
  }

  /** A record written out as one element of a saved list, the shape the loader restores.
      Undefined names and time stamps are left out, as `JSON.stringify` does. */
  function ListItem(x: Interaction): Json {
    JObj(
      (if x.drugA.Some? then [("drugA", x.drugA.value)] else []) +
      (if x.drugB.Some? then [("drugB", x.drugB.value)] else []) +
      [("compatibility", x.compatibility), ("note", x.note), ("source", x.source)] +
      (if x.lastUpdated.Some? then [("lastUpdated", x.lastUpdated.value)] else []))
  }

  /** A record with both names and a time stamp, a compatibility value that is set, and a
      note and source that are set or empty comes back unchanged from its saved-list form. */
  lemma {:induction false} ListRoundTrip(x: Interaction)
    requires x.drugA.Some? && x.drugB.Some? && x.lastUpdated.Some?
    requires Truthy(x.compatibility)
    requires Truthy(x.note) || x.note == JStr("")
    requires Truthy(x.source) || x.source == JStr("")
    ensures ListRecord(ListItem(x)) == Some(x)
  {
    var fs := [("drugA", x.drugA.value), ("drugB", x.drugB.value), ("compatibility", x.compatibility),
               ("note", x.note), ("source", x.source), ("lastUpdated", x.lastUpdated.value)];
    assert ListItem(x) == JObj(fs);
    assert "drugA"[4] != "drugB"[4];
    GetAt(fs, 0, "drugA");
    GetAt(fs, 1, "drugB");
    GetAt(fs, 2, "compatibility");
    GetAt(fs, 3, "note");
    GetAt(fs, 4, "source");
    GetAt(fs, 5, "lastUpdated");
    GetNone(fs, "mechanism");
  }

  // ---------------------------------------------------------------- the matrix format

  /** `Object.keys(subMap)` with the values they read: an object's fields, or an array's
      positions written as decimal strings. Other values have no entries. */
  function Entries(sub: Json): (es: seq<(string, Json)>)
    ensures sub.JObj? ==> es == sub.fields
    ensures sub.JArr? ==> (|es| == |sub.items| &&
      forall i :: 0 <= i < |es| ==> es[i] == (Text.NatToString(i), sub.items[i]))
    ensures !sub.JObj? && !sub.JArr? ==> es == []
  {
    match sub
    case JObj(fs) => fs
    case JArr(items) => seq(|items|, i requires 0 <= i < |items| => (Text.NatToString(i), items[i]))
    case _ => []
  }

  /** The index keys of an array's entries are pairwise distinct, so each element of an
      array row becomes a record under its own drug-B name. */
  lemma {:induction false} ArrayEntryKeysDistinct(sub: Json, i: nat, j: nat)
    requires sub.JArr? && i < j < |sub.items|
    ensures Entries(sub)[i].0 != Entries(sub)[j].0
  {
    if Entries(sub)[i].0 == Entries(sub)[j].0 {
      Text.NatToStringInjective(i, j);
    }
  }

  /** The record made from the entry `data` at `drugA` -> `drugB`, stamped with `now`. */
  function MatrixRecord(drugA: string, drugB: string, data: Json, now: string): (r: Interaction)
    ensures r.drugA == Some(JStr(drugA)) && r.drugB == Some(JStr(drugB)) && r.lastUpdated == Some(JStr(now))
    ensures Truthy(r.compatibility)
    ensures r.note == if Present(Member(data, "notes")) then Member(data, "notes").value else JStr("")
    ensures r.source == if Present(Member(data, "source")) then Member(data, "source").value else JStr("")
  {
    Interaction(
      Some(JStr(drugA)),
      Some(JStr(drugB)),
      OrElse(Member(data, "compatibility"), JObj([])),
      OrElse(Member(data, "notes"), JStr("")),
      OrElse(Member(data, "source"), JStr("")),
      Some(JStr(now)))
  }

  /** One step of the matrix walk: the record for an entry pushed, or a throw on a `null`
      entry. */
  datatype Cell = Push(drugA: string, drugB: string, data: Json, now: string) | Break

  /** The record a pushing step adds. */
  function Item(c: Cell): Interaction
    requires c.Push?
  {
    MatrixRecord(c.drugA, c.drugB, c.data, c.now)
  }

  function CellOf(drugA: string, e: (string, Json), now: string): Cell {
    if e.1 == JNull then Break else Push(drugA, e.0, e.1, now)
  }

  function RowCells(drugA: string, es: seq<(string, Json)>, now: string): (cs: seq<Cell>)
    ensures |cs| == |es| && forall i :: 0 <= i < |es| ==> cs[i] == CellOf(drugA, es[i], now)
  {
    seq(|es|, i requires 0 <= i < |es| => CellOf(drugA, es[i], now))
  }

  /** The steps for one drug A: a `null` sub-map throws at `Object.keys`, an object or array
      gives one step per entry, any other value is skipped. */
  function SubMapCells(drugA: string, sub: Json, now: string): (cs: seq<Cell>)
    ensures sub != JNull ==> cs == RowCells(drugA, Entries(sub), now)
  {
    if sub == JNull then [Break] else RowCells(drugA, Entries(sub), now)
  }

  /** The whole walk, drug A by drug A in key order. */
  function MatrixCells(fs: seq<(string, Json)>, now: string): seq<Cell> {
    if fs == [] then []
    else MatrixCells(fs[..|fs| - 1], now) + SubMapCells(fs[|fs| - 1].0, fs[|fs| - 1].1, now)
  }

  /** Running the steps: every record up to the first throw is pushed. */
  function Fill(cs: seq<Cell>): Loaded {
    if cs == [] then Loaded([], true)
    else if cs[0] == Break then Loaded([], false)
    else
      var t := Fill(cs[1..]);
      Loaded([Item(cs[0])] + t.list, t.ok)
  }

  /** The run finishes exactly when no step throws; it then holds one record per step, and
      otherwise the records of the steps before the first throw. */
  lemma {:induction false} FillMeaning(cs: seq<Cell>)
    ensures Fill(cs).ok <==> Break !in cs
    ensures Fill(cs).ok ==> |Fill(cs).list| == |cs|
    ensures !Fill(cs).ok ==> |Fill(cs).list| < |cs| && cs[|Fill(cs).list|] == Break
    ensures |Fill(cs).list| <= |cs| &&
      forall i :: 0 <= i < |Fill(cs).list| ==> cs[i].Push? && Fill(cs).list[i] == Item(cs[i])
  {
    if cs != [] && cs[0] != Break {
      var t := cs[1..];
      FillMeaning(t);
      var r := Fill(cs);
      assert r.list == [Item(cs[0])] + Fill(t).list;
      forall i | 0 <= i < |r.list| ensures cs[i].Push? && r.list[i] == Item(cs[i]) {
        if i > 0 {
          assert r.list[i] == Fill(t).list[i - 1] && cs[i] == t[i - 1];
        }
      }
      assert Break in cs <==> Break in t by {
        assert cs == [cs[0]] + t;
      }
      if !r.ok {
        assert cs[|r.list|] == t[|Fill(t).list|];
      }
    }
  }

  /** Running two stretches of steps one after the other. */
  lemma {:induction false} FillAppend(a: seq<Cell>, b: seq<Cell>)
    ensures Fill(a + b) == if Fill(a).ok then Loaded(Fill(a).list + Fill(b).list, Fill(b).ok) else Fill(a)
  {
    if a == [] {
      assert a + b == b;
    } else {
      assert (a + b)[0] == a[0];
      if a[0] != Break {
        assert (a + b)[1..] == a[1..] + b;
        FillAppend(a[1..], b);
      }
    }
  }

  /** A drug A whose walk throws: a `null` sub-map, or an object or array sub-map with a
      `null` entry. */
  predicate SubMapThrows(sub: Json) {
    sub == JNull || exists e :: e in Entries(sub) && e.1 == JNull
  }

  /** One drug A's walk throws exactly when its sub-map throws. */
  lemma {:induction false} SubMapThrowsCells(drugA: string, sub: Json, now: string)
    ensures Break in SubMapCells(drugA, sub, now) <==> SubMapThrows(sub)
  {
    if sub != JNull {
      var es := Entries(sub);
      var cs := SubMapCells(drugA, sub, now);
      if Break in cs {
        var k :| 0 <= k < |cs| && cs[k] == Break;
        assert es[k] in es;
      }
      if SubMapThrows(sub) {
        var e :| e in es && e.1 == JNull;
        var k :| 0 <= k < |es| && es[k] == e;
        assert cs[k] == Break;
      }
    }
  }

  /** The matrix load stops early exactly when some drug A's walk throws. */
  lemma {:induction false} MatrixThrows(fs: seq<(string, Json)>, now: string)
    ensures Break in MatrixCells(fs, now) <==> exists i :: 0 <= i < |fs| && SubMapThrows(fs[i].1)
  {
    if fs != [] {
      var p, last := fs[..|fs| - 1], fs[|fs| - 1];
      MatrixThrows(p, now);
      SubMapThrowsCells(last.0, last.1, now);
      var head, cs := MatrixCells(p, now), SubMapCells(last.0, last.1, now);
      assert MatrixCells(fs, now) == head + cs;
      if Break in head {
        var i :| 0 <= i < |p| && SubMapThrows(p[i].1);
        assert fs[i] == p[i];
      } else if Break in cs {
        assert SubMapThrows(fs[|fs| - 1].1);
      }
      if exists i :: 0 <= i < |fs| && SubMapThrows(fs[i].1) {
        var i :| 0 <= i < |fs| && SubMapThrows(fs[i].1);
        if i < |p| {
          assert p[i] == fs[i];
        }
      }
    }
  }

  // ---------------------------------------------------------------- loading a file

  /** `handleFileUpload` on a parsed file: the list starts again from empty. A matrix (any
      non-array object, `null` included) is walked only when the user confirms, a saved
      list is read element by element, and any other value gives the empty list. */
  function LoadParsed(json: Json, confirmed: bool, now: string): (r: Loaded)
    ensures (json.JObj? || json == JNull) && !confirmed ==> r == Loaded([], true)
    ensures json.JObj? && confirmed ==> r == Fill(MatrixCells(json.fields, now))
    ensures json == JNull && confirmed ==> r == Loaded([], false)
    ensures json.JArr? ==>
      r == if ListLoad(json.items).Some? then Loaded(ListLoad(json.items).value, true) else Loaded([], false)
    ensures json.JBool? || json.JNum? || json.JStr? ==> r == Loaded([], true)
  {
    match json
    case JObj(fs) => if confirmed then Fill(MatrixCells(fs, now)) else Loaded([], true)
    case JNull => if confirmed then Loaded([], false) else Loaded([], true)
    case JArr(items) =>
      var l := ListLoad(items);
      if l.Some? then Loaded(l.value, true) else Loaded([], false)
    case _ => Loaded([], true)
  }

  /** The whole handler: `parsed` is `None` when `JSON.parse` fails, which leaves the list
      as it was; after a successful parse the old list plays no part. */
  function LoadFile(parsed: Option<Json>, previous: seq<Interaction>, confirmed: bool, now: string): (r: Loaded)
    ensures parsed.None? ==> r == Loaded(previous, false)
    ensures parsed.Some? ==> r == LoadParsed(parsed.value, confirmed, now)
  {
    if parsed.None? then Loaded(previous, false) else LoadParsed(parsed.value, confirmed, now)
  }

  // ---------------------------------------------------------------- the exported matrix

  /** The entry written for a record. */
  function Entry(x: Interaction): Json {
    JObj([("compatibility", x.compatibility), ("notes", x.note), ("source", x.source)])
  }

  /** The property names a record is filed under: its names as strings. */
  function KeyA(x: Interaction): string {
    OptToStr(x.drugA)
  }

  function KeyB(x: Interaction): string {
    OptToStr(x.drugB)
  }

  predicate Files(x: Interaction, a: string, b: string) {
    KeyA(x) == a && KeyB(x) == b
  }

  /** One step of `downloadJSON`'s loop: drug A's object is created when missing, then the
      record's entry is written under drug B. */
  function NestOne(acc: Json, x: Interaction): Json {
    var inner := Member(acc, KeyA(x));
    var sub := if Present(inner) then inner.value else JObj([]);
    WithMember(acc, KeyA(x), WithMember(sub, KeyB(x), Entry(x)))
  }

  /** The exported matrix after the first `|list|` records. */
  function Nest(list: seq<Interaction>): (r: Json)
    ensures r.JObj?
  {
    if list == [] then JObj([]) else NestOne(Nest(list[..|list| - 1]), list[|list| - 1])
  }

  /** The entry the matrix holds at `a` -> `b`: that of the last record filed there. */
  function Lookup(list: seq<Interaction>, a: string, b: string): Option<Json> {
    if list == [] then None
    else if Files(list[|list| - 1], a, b) then Some(Entry(list[|list| - 1]))
    else Lookup(list[..|list| - 1], a, b)
  }

  /** `Lookup` finds nothing exactly when no record is filed at `a` -> `b`, and otherwise
      the entry of a record filed there after which no other is. */
  lemma {:induction false} LookupLast(list: seq<Interaction>, a: string, b: string)
    ensures Lookup(list, a, b).None? <==> forall i :: 0 <= i < |list| ==> !Files(list[i], a, b)
    ensures Lookup(list, a, b).Some? ==>
      exists i :: (0 <= i < |list| && Files(list[i], a, b) && Lookup(list, a, b).value == Entry(list[i]) &&
                   forall j :: i < j < |list| ==> !Files(list[j], a, b))
  {
    if list != [] {
      var p := list[..|list| - 1];
      LookupLast(p, a, b);
      assert forall i :: 0 <= i < |p| ==> p[i] == list[i];
    }
  }

  /** Some record has drug A `a`. */
  predicate HasDrugA(list: seq<Interaction>, a: string) {
    list != [] && (KeyA(list[|list| - 1]) == a || HasDrugA(list[..|list| - 1], a))
  }

  /** Reading the exported matrix: drug A's object exists exactly when some record has that
      drug A, and its entry at drug B is the last such record's entry, or none. */
  lemma {:induction false} NestLookup(list: seq<Interaction>, a: string, b: string)
    ensures Member(Nest(list), a).Some? <==> HasDrugA(list, a)
    ensures HasDrugA(list, a) ==>
      Member(Nest(list), a).value.JObj? && Member(Member(Nest(list), a).value, b) == Lookup(list, a, b)
  {
    if list != [] {
      var p := list[..|list| - 1];
      var x := list[|list| - 1];
      NestLookup(p, a, b);
      NestLookup(p, KeyA(x), KeyB(x));
      assert Nest(list) == NestOne(Nest(p), x);
      var n := Nest(p);
      var inner := Member(n, KeyA(x));
      var sub := if Present(inner) then inner.value else JObj([]);
      var sub' := WithMember(sub, KeyB(x), Entry(x));
      MemberWithAt(n, KeyA(x), sub', a);
      if a == KeyA(x) {
        MemberWithAt(sub, KeyB(x), Entry(x), b);
        if !HasDrugA(p, a) {
          NoDrugANoLookup(p, a, b);
        }
      }
    }
  }

  lemma {:induction false} NoDrugANoLookup(list: seq<Interaction>, a: string, b: string)
    requires !HasDrugA(list, a)
    ensures Lookup(list, a, b) == None
  {
    if list != [] {
      NoDrugANoLookup(list[..|list| - 1], a, b);
    }
  }

  /** Of two records filed at the same place, the later one's entry is the one written;
      the earlier one leaves no trace. */
  lemma {:induction false} ExportLastWins(list: seq<Interaction>, x: Interaction, y: Interaction)
    requires KeyA(x) == KeyA(y) && KeyB(x) == KeyB(y)
    ensures Nest(list + [x, y]) == Nest(list + [y])
  {
    assert (list + [x, y])[..|list| + 1] == list + [x];
    assert (list + [x])[..|list|] == list;
    assert (list + [y])[..|list|] == list;
    var n := Nest(list);
    var inner := Member(n, KeyA(x));
    var sub := if Present(inner) then inner.value else JObj([]);
    var s1 := WithMember(sub, KeyB(x), Entry(x));
    var n1 := WithMember(n, KeyA(x), s1);
    assert Nest(list + [x]) == n1;
    MemberWithAt(n, KeyA(x), s1, KeyA(y));
    assert Truthy(s1);
    WithMemberTwice(sub, KeyB(x), Entry(x), Entry(y));
    WithMemberTwice(n, KeyA(x), s1, WithMember(sub, KeyB(x), Entry(y)));
  }

  /** The export writes each record in one direction only: with no record filed at
      `b` -> `a`, the matrix has no entry there. */
  lemma {:induction false} ExportOneDirection(list: seq<Interaction>, a: string, b: string)
    requires forall i :: 0 <= i < |list| ==> !Files(list[i], b, a)
    ensures Member(Nest(list), b).None? || Member(Member(Nest(list), b).value, a).None?
  {
    NestLookup(list, b, a);
    LookupLast(list, b, a);
  }

  // ---------------------------------------------------------------- the dialog's save

  /** The dialog's inputs as typed. */
  datatype Form = Form(drugA: string, drugB: string, note: string, source: string, compat: AutoNote.Compat)

  /** A select's field of the compatibility object: left out (undefined) when empty. */
  function Rated(key: string, v: string): seq<(string, Json)> {
    if v == "" then [] else [(key, JStr(v))]
  }

  /** The compatibility object built from the four selects, in the order Y-site,
      admixture, syringe, solution, without the unselected ones. */
  function CompatObject(c: AutoNote.Compat): (r: Json)
    ensures r.JObj? && Truthy(r)
  {
    JObj(Rated("ySite", c.ySite) + Rated("admixture", c.admixture) + Rated("syringe", c.syringe) + Rated("solution", c.solution))
  }

  /** Each select reads back from the compatibility object: its value when one was chosen,
      undefined otherwise. */
  lemma {:induction false} CompatObjectReads(c: AutoNote.Compat)
    ensures Member(CompatObject(c), "ySite") == if c.ySite == "" then None else Some(JStr(c.ySite))
    ensures Member(CompatObject(c), "admixture") == if c.admixture == "" then None else Some(JStr(c.admixture))
    ensures Member(CompatObject(c), "syringe") == if c.syringe == "" then None else Some(JStr(c.syringe))
    ensures Member(CompatObject(c), "solution") == if c.solution == "" then None else Some(JStr(c.solution))
  {
    var y, a, s, o := Rated("ySite", c.ySite), Rated("admixture", c.admixture), Rated("syringe", c.syringe), Rated("solution", c.solution);
    GetAppend(y + a + s, o, "ySite");
    GetAppend(y + a, s, "ySite");
    GetAppend(y, a, "ySite");
    GetAppend(y + a + s, o, "admixture");
    GetAppend(y + a, s, "admixture");
    GetAppend(y, a, "admixture");
    GetAppend(y + a + s, o, "syringe");
    GetAppend(y + a, s, "syringe");
    GetAppend(y, a, "syringe");
    GetAppend(y + a + s, o, "solution");
    GetAppend(y + a, s, "solution");
    GetAppend(y, a, "solution");
  }

  /** The record a save writes: trimmed names, note and source, the compatibility object
      and the time stamp `now`. */
  function NewRecord(f: Form, now: string): (r: Interaction)
    ensures r.drugA == Some(JStr(Text.Trim(f.drugA))) && r.drugB == Some(JStr(Text.Trim(f.drugB)))
    ensures r.note == JStr(Text.Trim(f.note)) && r.source == JStr(Text.Trim(f.source))
    ensures r.compatibility == CompatObject(f.compat) && r.lastUpdated == Some(JStr(now))
  {
    Interaction(
      Some(JStr(Text.Trim(f.drugA))),
      Some(JStr(Text.Trim(f.drugB))),
      CompatObject(f.compat),
      JStr(Text.Trim(f.note)),
      JStr(Text.Trim(f.source)),
      Some(JStr(now)))
  }

  /** The two names in `sort()` order. */
  function Ordered(x: string, y: string): (p: (string, string))
    ensures (p.0 == x && p.1 == y) || (p.0 == y && p.1 == x)
    ensures !Text.LexLess(p.1, p.0)
  {
    if Text.LexLess(y, x) then
      Text.LexLessAsymmetric(y, x);
      (y, x)
    else (x, y)
  }

  /** `[a.toLowerCase(), b.toLowerCase()].sort().join('|')`. */
  function PairKey(a: string, b: string): string {
    var p := Ordered(Text.Lower(a), Text.Lower(b));
    p.0 + "|" + p.1
  }

  /** The pair key does not depend on which name comes first. */
  lemma {:induction false} PairKeySymmetric(a: string, b: string)
    ensures PairKey(a, b) == PairKey(b, a)
  {
    var x, y := Text.Lower(a), Text.Lower(b);
    if x != y {
      Text.LexLessTotal(x, y);
      if Text.LexLess(x, y) {
        Text.LexLessAsymmetric(x, y);
      } else {
        Text.LexLessAsymmetric(y, x);
      }
    }
  }

  lemma {:induction false} LowerKeepsBar(s: string)
    requires '|' !in s
    ensures '|' !in Text.Lower(s)
  {
  }

  /** For names without `|`, two pairs get the same key exactly when they are the same
      unordered pair of names, ignoring case. */
  lemma {:induction false} PairKeyExact(a: string, b: string, c: string, d: string)
    requires '|' !in a && '|' !in b && '|' !in c && '|' !in d
    ensures PairKey(a, b) == PairKey(c, d) <==>
      (Text.Lower(a) == Text.Lower(c) && Text.Lower(b) == Text.Lower(d)) ||
      (Text.Lower(a) == Text.Lower(d) && Text.Lower(b) == Text.Lower(c))
  {
    LowerKeepsBar(a);
    LowerKeepsBar(b);
    LowerKeepsBar(c);
    LowerKeepsBar(d);
    var p := Ordered(Text.Lower(a), Text.Lower(b));
    var q := Ordered(Text.Lower(c), Text.Lower(d));
    Text.SplitAfterPiece(p.0, '|', p.1);
    Text.SplitNoSep(p.1, '|');
    Text.SplitAfterPiece(q.0, '|', q.1);
    Text.SplitNoSep(q.1, '|');
    assert PairKey(a, b) == p.0 + ['|'] + p.1;
    assert PairKey(c, d) == q.0 + ['|'] + q.1;
    assert '|' !in p.0 && '|' !in p.1 && '|' !in q.0 && '|' !in q.1;
    assert Text.Split(PairKey(a, b), '|') == [p.0] + [p.1] == [p.0, p.1];
    assert Text.Split(PairKey(c, d), '|') == [q.0] + [q.1] == [q.0, q.1];
    if Text.Lower(a) == Text.Lower(d) && Text.Lower(b) == Text.Lower(c) {
      PairKeySymmetric(c, d);
    }
  }

  /** Names holding `|` can collide: `a|b` with `c` and `a` with `b|c` share a key. */
  lemma {:induction false} PairKeyCollision()
    ensures PairKey("a|b", "c") == PairKey("a", "b|c")
    ensures Text.Lower("a|b") != Text.Lower("a") && Text.Lower("a|b") != Text.Lower("b|c")
  {
    assert Text.Lower("a|b") == "a|b";
    assert Text.Lower("c") == "c";
    assert Text.Lower("a") == "a";
    assert Text.Lower("b|c") == "b|c";
    assert !Text.LexLess("c", "a|b");
    assert !Text.LexLess("b|c", "a");
  }

  /** The pair key of a stored record, or `None` where `toLowerCase` throws because a name
      is not a string. */
  function PairOf(x: Interaction): (r: Option<string>)
    ensures r.Some? <==> x.drugA.Some? && x.drugA.value.JStr? && x.drugB.Some? && x.drugB.value.JStr?
  {
    if x.drugA.Some? && x.drugA.value.JStr? && x.drugB.Some? && x.drugB.value.JStr? then
      Some(PairKey(x.drugA.value.s, x.drugB.value.s))
    else None
  }

  predicate Skipped(skip: Option<nat>, j: nat) {
    skip.Some? && skip.value == j
  }

  /** Records `from` to `to` other than the skipped one all have a key, and none is `key`. */
  predicate Clear(list: seq<Interaction>, skip: Option<nat>, key: string, from: nat, to: nat)
    requires from <= to <= |list|
  {
    forall j: nat :: from <= j < to && !Skipped(skip, j) ==> PairOf(list[j]).Some? && PairOf(list[j]).value != key
  }

  /** The outcome of `INTERACTIONS.find(...)`: the first clashing record, none, or a throw. */
  datatype Scan = Clash(index: nat) | NoClash | Fails

  /** The duplicate search from position `from` on, skipping the edited record: records
      are tried in order and the first one with the same key, or the first one whose names
      are not strings, ends the search. */
  function FindDuplicate(list: seq<Interaction>, skip: Option<nat>, key: string, from: nat): Scan
    requires from <= |list|
    decreases |list| - from
  {
    if from == |list| then NoClash
    else if Skipped(skip, from) then FindDuplicate(list, skip, key, from + 1)
    else
      var p := PairOf(list[from]);
      if p.None? then Fails
      else if p.value == key then Clash(from)
      else FindDuplicate(list, skip, key, from + 1)
  }

  /** The search finds the first record other than the skipped one whose key is `key`,
      fails at the first one without a key, and finds nothing exactly when every other
      record has a key different from `key`. */
  lemma {:induction false} FindDuplicateMeaning(list: seq<Interaction>, skip: Option<nat>, key: string, from: nat)
    requires from <= |list|
    ensures var r := FindDuplicate(list, skip, key, from);
      r.Clash? ==> from <= r.index < |list| && !Skipped(skip, r.index) &&
                   PairOf(list[r.index]) == Some(key) && Clear(list, skip, key, from, r.index)
    ensures FindDuplicate(list, skip, key, from).NoClash? <==> Clear(list, skip, key, from, |list|)
    ensures FindDuplicate(list, skip, key, from).Fails? ==>
      exists k: nat :: (from <= k < |list| && !Skipped(skip, k) && PairOf(list[k]).None? && Clear(list, skip, key, from, k))
    decreases |list| - from
  {
    if from < |list| {
      var p := PairOf(list[from]);
      if Skipped(skip, from) || (p.Some? && p.value != key) {
        FindDuplicateMeaning(list, skip, key, from + 1);
        var r := FindDuplicate(list, skip, key, from);
        if r.Fails? {
          var k: nat :| from + 1 <= k < |list| && !Skipped(skip, k) && PairOf(list[k]).None? && Clear(list, skip, key, from + 1, k);
          assert Clear(list, skip, key, from, k);
        }
      } else {
        assert Clear(list, skip, key, from, from);
        if p.Some? {
          assert !Clear(list, skip, key, from, |list|);
        }
      }
    }
  }

  /** How a save ends. */
  datatype Verdict = MissingName | Duplicate(index: nat) | Throws | Saved(list: seq<Interaction>)

  /** `saveFromModal`: either trimmed name empty refuses the save; a different record with
      the same case-insensitive unordered pair refuses it too; otherwise the new record is
      pushed (no edit index) or replaces the edited one. */
  function Save(list: seq<Interaction>, editIndex: Option<nat>, f: Form, now: string): (r: Verdict)
    ensures r == MissingName <==> Text.Trim(f.drugA) == "" || Text.Trim(f.drugB) == ""
    ensures r.Duplicate? ==> (r.index < |list| && !Skipped(editIndex, r.index) &&
      PairOf(list[r.index]) == PairOf(NewRecord(f, now)))
    ensures r.Saved? ==> r.list == PlaceAt(list, editIndex, NewRecord(f, now))
    ensures r.Saved? <==> (Text.Trim(f.drugA) != "" && Text.Trim(f.drugB) != "" &&
      Clear(list, editIndex, PairKey(Text.Trim(f.drugA), Text.Trim(f.drugB)), 0, |list|))
  {
    var a, b := Text.Trim(f.drugA), Text.Trim(f.drugB);
    FindDuplicateMeaning(list, editIndex, PairKey(a, b), 0);
    if a == "" || b == "" then MissingName
    else
      match FindDuplicate(list, editIndex, PairKey(a, b), 0)
      case Clash(i) => Duplicate(i)
      case Fails => Throws
      case NoClash => Saved(PlaceAt(list, editIndex, NewRecord(f, now)))
  }

  /** Where a saved record lands. */
  function Slot(list: seq<Interaction>, editIndex: Option<nat>): nat {
    if editIndex.Some? && editIndex.value < |list| then editIndex.value else |list|
  }

  /** A save never makes a second record for the same pair: after it, every other record
      has a key and it differs from the saved record's. */
  lemma {:induction false} SaveKeepsPairsApart(list: seq<Interaction>, editIndex: Option<nat>, f: Form, now: string)
    requires Save(list, editIndex, f, now).Saved?
    ensures var l := Save(list, editIndex, f, now).list; var s := Slot(list, editIndex);
      s < |l| && l[s] == NewRecord(f, now) && PairOf(l[s]).Some? &&
      forall j :: 0 <= j < |l| && j != s ==> PairOf(l[j]).Some? && PairOf(l[j]) != PairOf(l[s])
  {
    var l := Save(list, editIndex, f, now).list;
    var s := Slot(list, editIndex);
    var key := PairKey(Text.Trim(f.drugA), Text.Trim(f.drugB));
    forall j | 0 <= j < |l| && j != s ensures PairOf(l[j]).Some? && PairOf(l[j]) != PairOf(l[s]) {
      assert l[j] == list[j] && !Skipped(editIndex, j);
    }
  }

  /** No two records share a pair key, and every record has one. */
  predicate PairsApart(list: seq<Interaction>) {
    (forall i :: 0 <= i < |list| ==> PairOf(list[i]).Some?) &&
    forall i, j :: 0 <= i < j < |list| ==> PairOf(list[i]) != PairOf(list[j])
  }

  /** A list without duplicate pairs keeps that property through a save. */
  lemma {:induction false} SavePreservesPairsApart(list: seq<Interaction>, editIndex: Option<nat>, f: Form, now: string)
    requires PairsApart(list) && Save(list, editIndex, f, now).Saved?
    ensures PairsApart(Save(list, editIndex, f, now).list)
  {
    var l := Save(list, editIndex, f, now).list;
    var s := Slot(list, editIndex);
    SaveKeepsPairsApart(list, editIndex, f, now);
    forall i, j | 0 <= i < j < |l| ensures PairOf(l[i]) != PairOf(l[j]) {
      if i != s && j != s {
        assert l[i] == list[i] && l[j] == list[j];
      }
    }
  }

  /** ... and through a deletion. */
  lemma {:induction false} DeletePreservesPairsApart(list: seq<Interaction>, index: nat)
    requires PairsApart(list)
    ensures PairsApart(RemoveAt(list, index))
  {
    var l := RemoveAt(list, index);
    forall i, j | 0 <= i < j < |l| ensures PairOf(l[i]) != PairOf(l[j]) {
      var i' := if i < index then i else i + 1;
      var j' := if j < index then j else j + 1;
      assert l[i] == list[i'] && l[j] == list[j'] && i' < j';
    }
  }

  // ---------------------------------------------------------------- the edit dialog

  /** What an input shows for `value || ""`. */
  function FieldText(o: Option<Json>): string {
    if Present(o) then ToStr(o.value) else ""
  }

  /** The inputs `openEditModal` fills from a record before the note is regenerated:
      names, selects, note and source as stored, empty when missing. */
  function EditForm(x: Interaction): Form {
    var comp := OrElse(Some(x.compatibility), JObj([]));
    var c := AutoNote.Compat(
      FieldText(Member(comp, "ySite")), FieldText(Member(comp, "admixture")),
      FieldText(Member(comp, "syringe")), FieldText(Member(comp, "solution")));
    Form(FieldText(x.drugA), FieldText(x.drugB), FieldText(Some(x.note)), FieldText(Some(x.source)), c)
  }

  /** The inputs filled when a just-saved record is reopened, before the note is regenerated:
      what was typed, trimmed, and the same selects. */
  lemma {:induction false} EditSavedRecord(f: Form, now: string)
    ensures EditForm(NewRecord(f, now)) ==
      Form(Text.Trim(f.drugA), Text.Trim(f.drugB), Text.Trim(f.note), Text.Trim(f.source), f.compat)
  {
    CompatObjectReads(f.compat);
  }

  /** `openEditModal` ends with `updateAutoNote`: the dialog shows the filled inputs with the
      note generated from the selects and the first name. */
  function Reopened(x: Interaction): (g: Form)
    ensures g.drugA == EditForm(x).drugA && g.drugB == EditForm(x).drugB
    ensures g.source == EditForm(x).source && g.compat == EditForm(x).compat
    ensures g.note == AutoNote.FormNote(g.compat, g.drugA)
  {
    var e := EditForm(x);
    e.(note := AutoNote.FormNote(e.compat, e.drugA))
  }

  /** Reopening a just-saved record shows the names and the source trimmed, the same selects,
      and the note generated for them: a note typed over the generated one is not shown. */
  lemma {:induction false} ReopenSavedRecord(f: Form, now: string, other: string)
    ensures Reopened(NewRecord(f, now)) ==
      Form(Text.Trim(f.drugA), Text.Trim(f.drugB), AutoNote.FormNote(f.compat, Text.Trim(f.drugA)),
           Text.Trim(f.source), f.compat)
    ensures Reopened(NewRecord(f, now)) == Reopened(NewRecord(f.(note := other), now))
  {
    EditSavedRecord(f, now);
    EditSavedRecord(f.(note := other), now);
  }
}
