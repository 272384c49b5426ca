/** The text-area codecs of the medication editor: each structured list entry is flattened
    to one line for editing and parsed back on save (side effects as `key: value | ...`,
    premedications as `drug | route | timing`, prophylaxis and supportive care as
    `type | notes`). */
module MedicationCodecs {
  import opened Wrappers
  import opened Json
  import Text

  // ---------------------------------------------------------------- flattening

  /** `${entry[k] || ''}`. */
  function FieldText(entry: Json, k: string): string {
    var v := Member(entry, k);
    if Present(v) then ToStr(v.value) else ""
  }

  /** `key: value` for every field of an object, in order. */
  function EntryTexts(fs: seq<(string, Json)>): (r: seq<string>)
    ensures |r| == |fs|
    ensures forall i :: 0 <= i < |fs| ==> r[i] == fs[i].0 + ": " + ToStr(fs[i].1)
  {
    if fs == [] then [] else [fs[0].0 + ": " + ToStr(fs[0].1)] + EntryTexts(fs[1..])
  }

  /** `index: value` for every element of an array (what `Object.entries` gives for an array). */
  function IndexedTexts(xs: seq<Json>, from: nat): (r: seq<string>)
    ensures |r| == |xs|
    decreases |xs|
  {
    if xs == [] then [] else [Text.NatToString(from) + ": " + ToStr(xs[0])] + IndexedTexts(xs[1..], from + 1)
  }

  /** One side-effect entry as a line. `None` when the source throws (reading `Object.entries`
      of `null`). A number or boolean has no entries and gives the empty line. */
  function FlattenSideEffect(item: Json): (r: Option<string>)
    ensures r.None? <==> item == JNull
    ensures item.JStr? ==> r == Some(item.s)
  {
    match item
    case JNull => None
    case JStr(s) => Some(s)
    case JObj(fs) => Some(Text.Join(EntryTexts(fs), " | "))
    case JArr(xs) => Some(Text.Join(IndexedTexts(xs, 0), " | "))
    case _ => Some("")
  }

  /** One premedication as a line: a string stays as it is, anything else is written as
      `drug | route | timing`. `None` for `null`, whose properties cannot be read. */
  function FlattenPremed(p: Json): (r: Option<string>)
    ensures r.None? <==> p == JNull
    ensures p.JStr? ==> r == Some(p.s)
  {
    match p
    case JNull => None
    case JStr(s) => Some(s)
    case _ => Some(FieldText(p, "drug") + " | " + FieldText(p, "route") + " | " + FieldText(p, "timing"))
  }

  /** One prophylaxis or supportive-care entry as a line, `type | notes`. */
  function FlattenTypeNote(i: Json): (r: Option<string>)
    ensures r.None? <==> i == JNull
    ensures i.JStr? ==> r == Some(i.s)
  {
    match i
    case JNull => None
    case JStr(s) => Some(s)
    case _ => Some(FieldText(i, "type") + " | " + FieldText(i, "notes"))
  }

  datatype Codec = SideEffects | Premedications | TypeNotes

  function FlattenEntry(c: Codec, item: Json): Option<string> {
    match c
    case SideEffects => FlattenSideEffect(item)
    case Premedications => FlattenPremed(item)
    case TypeNotes => FlattenTypeNote(item)
  }

  function FlattenEntries(c: Codec, xs: seq<Json>): (r: Option<seq<string>>)
    ensures r.Some? <==> forall i :: 0 <= i < |xs| ==> FlattenEntry(c, xs[i]).Some?
    ensures r.Some? ==> |r.value| == |xs| && forall i :: 0 <= i < |xs| ==> r.value[i] == FlattenEntry(c, xs[i]).value
  {
    if xs == [] then Some([])
    else
      match (FlattenEntry(c, xs[0]), FlattenEntries(c, xs[1..]))
      case (Some(line), Some(rest)) => Some([line] + rest)
      case _ => None
  }

  /** `flattenComplexObj` / `flattenPremeds` / `flattenTypeNotes`: a falsy list gives no
      lines, an array gives one line per entry, and anything else (or a `null` entry) makes
      the source throw, which is `None`. */
  function FlattenList(c: Codec, arr: Json): (r: Option<seq<string>>)
    ensures !Truthy(arr) ==> r == Some([])
    ensures arr.JArr? ==> r == FlattenEntries(c, arr.items)
    ensures Truthy(arr) && !arr.JArr? ==> r == None
  {
    if !Truthy(arr) then Some([])
    else if arr.JArr? then FlattenEntries(c, arr.items)
    else None
  }

  // ---------------------------------------------------------------- parsing

  /** What one `|`-separated part of a side-effect line contributes: `k: v` with both sides
      non-empty after trimming (anything after a second `:` is ignored). */
  function EntryOf(part: string): Option<(string, string)> {
    var kv := Text.MapTrim(Text.Split(part, ':'));
    if kv[0] != "" && |kv| > 1 && kv[1] != "" then Some((kv[0], kv[1])) else None
  }

  /** The object built part by part; a repeated key keeps its first position and takes the
      later value. */
  function BuildEntries(acc: seq<(string, Json)>, parts: seq<string>): seq<(string, Json)>
    decreases |parts|
  {
    if parts == [] then acc else BuildEntries(AddPart(acc, parts[0]), parts[1..])
  }

  /** One part's contribution to the object being built. */
  function AddPart(acc: seq<(string, Json)>, part: string): seq<(string, Json)> {
    var e := EntryOf(part);
    if e.Some? then Put(acc, e.value.0, JStr(e.value.1)) else acc
  }

  lemma {:induction false} BuildEntriesCons(acc: seq<(string, Json)>, x: string, tail: seq<string>)
    ensures BuildEntries(acc, [x] + tail) == BuildEntries(AddPart(acc, x), tail)
  {
    assert ([x] + tail)[1..] == tail;
  }

  /** `parseComplexObj` on one line: a line without `:` stays a string. */
  function ParseSideEffect(line: string): (r: Json)
    ensures ':' !in line ==> r == JStr(line)
    ensures ':' in line ==> r.JObj?
  {
    if ':' !in line then JStr(line) else JObj(BuildEntries([], Text.Split(line, '|')))
  }

  function PremedEntry(drug: string, route: string, timing: string): Json {
    JObj([("drug", JStr(drug)), ("route", JStr(route)), ("timing", JStr(timing))])
  }

  /** `parsePremeds` on one line: fewer than two parts keeps the whole line as the drug;
      otherwise the first three trimmed parts, missing ones empty. */
  function ParsePremed(line: string): Json {
    var parts := Text.MapTrim(Text.Split(line, '|'));
    if |parts| < 2 then PremedEntry(line, "", "")
    else PremedEntry(parts[0], parts[1], if |parts| > 2 then parts[2] else "")
  }

  function TypeNoteEntry(kind: string, notes: string): Json {
    JObj([("type", JStr(kind)), ("notes", JStr(notes))])
  }

  /** `parseTypeNotes` on one line: fewer than two parts keeps the whole line as the type;
      otherwise the first two trimmed parts. */
  function ParseTypeNote(line: string): Json {
    var parts := Text.MapTrim(Text.Split(line, '|'));
    if |parts| < 2 then TypeNoteEntry(line, "") else TypeNoteEntry(parts[0], parts[1])
  }

  function ParseEntry(c: Codec, line: string): Json {
    match c
    case SideEffects => ParseSideEffect(line)
    case Premedications => ParsePremed(line)
    case TypeNotes => ParseTypeNote(line)
  }

  /** `parseComplexObj` / `parsePremeds` / `parseTypeNotes`: one entry per line, in order. */
  function ParseList(c: Codec, lines: seq<string>): (r: seq<Json>)
    ensures |r| == |lines| && forall i :: 0 <= i < |lines| ==> r[i] == ParseEntry(c, lines[i])
  {
    if lines == [] then [] else [ParseEntry(c, lines[0])] + ParseList(c, lines[1..])
  }

  // ---------------------------------------------------------------- padding lemmas

  lemma {:induction false} MapTrimSplitWhitePrefix(c: char, s: string, sep: char)
    requires Text.IsWhite(c) && c != sep
    ensures Text.MapTrim(Text.Split([c] + s, sep)) == Text.MapTrim(Text.Split(s, sep))
  {
    assert ([c] + s)[1..] == s;
    var t := Text.Split(s, sep);
    var u := Text.Split([c] + s, sep);
    assert u == [[c] + t[0]] + t[1..];
    var a := Text.MapTrim(u);
    var b := Text.MapTrim(t);
    forall i | 0 <= i < |t| ensures a[i] == b[i] {
      if i == 0 {
        Text.TrimWhitePrefix(c, t[0]);
      } else {
        assert u[i] == t[i];
      }
    }
  }

  lemma {:induction false} MapTrimSplitWhiteSuffix(s: string, c: char, sep: char)
    requires Text.IsWhite(c) && c != sep
    ensures Text.MapTrim(Text.Split(s + [c], sep)) == Text.MapTrim(Text.Split(s, sep))
  {
    Text.SplitAppend(s, c, sep);
    var t := Text.Split(s, sep);
    Text.TrimWhiteSuffix(t[|t| - 1], c);
    MapTrimLast(t, t[|t| - 1] + [c]);
  }

  /** Replacing the last part by one that trims to the same text changes no trimmed part. */
  lemma {:induction false} MapTrimLast(t: seq<string>, last: string)
    requires |t| >= 1 && Text.Trim(last) == Text.Trim(t[|t| - 1])
    ensures Text.MapTrim(t[..|t| - 1] + [last]) == Text.MapTrim(t)
  {
    var n := |t|;
    var u := t[..n - 1] + [last];
    var a := Text.MapTrim(u);
    var b := Text.MapTrim(t);
    forall i | 0 <= i < n ensures a[i] == b[i] {
      if i < n - 1 {
        assert u[i] == t[i];
      }
    }
  }

  /** The pieces of `x + " | " + j`: `x` with a trailing space, then the pieces of `j`
      with a leading space on the first. */
  lemma {:induction false} BarJoinPieces(x: string, j: string)
    requires '|' !in x
    ensures var t := Text.Split(j, '|');
      Text.Split(x + " | " + j, '|') == [x + " "] + ([" " + t[0]] + t[1..])
  {
    assert x + " | " + j == (x + " ") + ['|'] + (" " + j);
    Text.SplitAfterPiece(x + " ", '|', " " + j);
    assert (" " + j)[1..] == j;
  }

  lemma {:induction false} JoinBarsCons(xs: seq<string>)
    requires |xs| > 1
    ensures Text.Join(xs, " | ") == xs[0] + " | " + Text.Join(xs[1..], " | ")
  {
  }

  /** A line written as `a | b | c` reads back as its trimmed parts. */
  lemma {:induction false} BarLineParts(xs: seq<string>)
    requires |xs| >= 1
    requires forall i :: 0 <= i < |xs| ==> '|' !in xs[i]
    ensures Text.MapTrim(Text.Split(Text.Join(xs, " | "), '|')) == Text.MapTrim(xs)
  {
    if |xs| == 1 {
      Text.SplitNoSep(xs[0], '|');
    } else {
      var rest := xs[1..];
      var j := Text.Join(rest, " | ");
      JoinBarsCons(xs);
      BarJoinPieces(xs[0], j);
      BarLineParts(rest);
      var t := Text.Split(j, '|');
      var pieces := [xs[0] + " "] + ([" " + t[0]] + t[1..]);
      Text.TrimWhiteSuffix(xs[0], ' ');
      MapTrimSplitWhitePrefix(' ', j, '|');
      assert Text.Split(" " + j, '|') == [" " + t[0]] + t[1..] by {
        assert (" " + j)[1..] == j;
      }
      assert Text.MapTrim(pieces) == [Text.Trim(xs[0])] + Text.MapTrim([" " + t[0]] + t[1..]);
      assert Text.MapTrim(xs) == [Text.Trim(xs[0])] + Text.MapTrim(rest);
    }
  }

  lemma {:induction false} EntryOfPadding(x: string)
    ensures EntryOf(" " + x) == EntryOf(x)
    ensures EntryOf(x + " ") == EntryOf(x)
  {
    MapTrimSplitWhitePrefix(' ', x, ':');
    MapTrimSplitWhiteSuffix(x, ' ', ':');
  }

  /** Building an object only looks at what each part contributes. */
  lemma {:induction false} BuildEntriesPointwise(acc: seq<(string, Json)>, ps: seq<string>, qs: seq<string>)
    requires |ps| == |qs|
    requires forall i :: 0 <= i < |ps| ==> EntryOf(ps[i]) == EntryOf(qs[i])
    ensures BuildEntries(acc, ps) == BuildEntries(acc, qs)
    decreases |ps|
  {
    if ps != [] {
      BuildEntriesPointwise(AddPart(acc, ps[0]), ps[1..], qs[1..]);
    }
  }

  /** The pieces of a list with a leading space added to its first element. */
  function PadFirst(t: seq<string>): seq<string>
    requires |t| >= 1
  {
    [" " + t[0]] + t[1..]
  }

  lemma {:induction false} BarLineSplit(x: string, rest: seq<string>)
    requires |rest| >= 1 && '|' !in x
    ensures |Text.Split(Text.Join(rest, " | "), '|')| >= 1
    ensures Text.Split(Text.Join([x] + rest, " | "), '|')
         == [x + " "] + PadFirst(Text.Split(Text.Join(rest, " | "), '|'))
  {
    JoinBarsCons([x] + rest);
    assert ([x] + rest)[1..] == rest;
    BarJoinPieces(x, Text.Join(rest, " | "));
  }

  lemma {:induction false} BuildEntriesPadFirst(acc: seq<(string, Json)>, t: seq<string>)
    requires |t| >= 1
    ensures BuildEntries(acc, PadFirst(t)) == BuildEntries(acc, t)
  {
    var tail := PadFirst(t);
    forall i | 0 <= i < |tail| ensures EntryOf(tail[i]) == EntryOf(t[i]) {
      if i == 0 {
        EntryOfPadding(t[0]);
      } else {
        assert tail[i] == t[i];
      }
    }
    BuildEntriesPointwise(acc, tail, t);
  }

  /** One step of `BuildEntriesBarLine`: putting `x | ` in front of a line that reads back
      as its parts. */
  lemma {:induction false} BarLineStep(acc: seq<(string, Json)>, x: string, rest: seq<string>)
    requires |rest| >= 1 && '|' !in x
    requires BuildEntries(AddPart(acc, x), Text.Split(Text.Join(rest, " | "), '|'))
          == BuildEntries(AddPart(acc, x), rest)
    ensures BuildEntries(acc, Text.Split(Text.Join([x] + rest, " | "), '|')) == BuildEntries(acc, [x] + rest)
  {
    var t := Text.Split(Text.Join(rest, " | "), '|');
    BarLineSplit(x, rest);
    BuildEntriesCons(acc, x + " ", PadFirst(t));
    EntryOfPadding(x);
    BuildEntriesPadFirst(AddPart(acc, x), t);
    BuildEntriesCons(acc, x, rest);
  }

  lemma {:induction false} BarLineSingle(acc: seq<(string, Json)>, x: string)
    requires '|' !in x
    ensures BuildEntries(acc, Text.Split(Text.Join([x], " | "), '|')) == BuildEntries(acc, [x])
  {
    Text.SplitNoSep(x, '|');
  }

  /** Reading back a side-effect line written as `p | q | r` is reading the parts themselves. */
  lemma {:induction false} BuildEntriesBarLine(acc: seq<(string, Json)>, xs: seq<string>)
    requires |xs| >= 1
    requires forall i :: 0 <= i < |xs| ==> '|' !in xs[i]
    ensures BuildEntries(acc, Text.Split(Text.Join(xs, " | "), '|')) == BuildEntries(acc, xs)
    decreases |xs|
  {
    var x, rest := xs[0], xs[1..];
    assert xs == [x] + rest;
    if rest == [] {
      BarLineSingle(acc, x);
    } else {
      BuildEntriesBarLine(AddPart(acc, x), rest);
      BarLineStep(acc, x, rest);
    }
  }

  // ---------------------------------------------------------------- round trips

  /** A clean field: already trimmed and free of the `|` separator. */
  predicate CleanField(s: string) {
    Text.Trim(s) == s && '|' !in s
  }

  lemma {:induction false} PremedLine(drug: string, route: string, timing: string)
    ensures FlattenPremed(PremedEntry(drug, route, timing)) == Some(Text.Join([drug, route, timing], " | "))
  {
    var p := PremedEntry(drug, route, timing);
    var fs := p.fields;
    assert fs[1..][1..] == [("timing", JStr(timing))];
    assert Get(fs[1..][1..], "timing") == Some(JStr(timing));
    assert Get(fs[1..], "timing") == Some(JStr(timing));
    assert Get(fs[1..], "route") == Some(JStr(route));
    assert FieldText(p, "drug") == drug;
    assert FieldText(p, "route") == route;
    assert FieldText(p, "timing") == timing;
    assert Text.Join([timing], " | ") == timing;
    assert [route, timing][1..] == [timing];
    assert Text.Join([route, timing], " | ") == route + " | " + timing;
    assert [drug, route, timing][1..] == [route, timing];
    assert Text.Join([drug, route, timing], " | ") == drug + " | " + (route + " | " + timing);
    assert drug + " | " + route + " | " + timing == drug + " | " + (route + " | " + timing);
    assert FlattenPremed(p) == Some(drug + " | " + route + " | " + timing);
  }

  lemma {:induction false} ParsePremedOf(line: string, drug: string, route: string, timing: string)
    requires Text.MapTrim(Text.Split(line, '|')) == [drug, route, timing]
    ensures ParsePremed(line) == PremedEntry(drug, route, timing)
  {
  }

  lemma {:induction false} ParseTypeNoteOf(line: string, kind: string, notes: string)
    requires Text.MapTrim(Text.Split(line, '|')) == [kind, notes]
    ensures ParseTypeNote(line) == TypeNoteEntry(kind, notes)
  {
  }

  lemma {:induction false} MapTrimClean(xs: seq<string>)
    requires forall i :: 0 <= i < |xs| ==> Text.Trim(xs[i]) == xs[i]
    ensures Text.MapTrim(xs) == xs
  {
  }

  /** A premedication object with clean string fields comes back unchanged from
      flatten-then-parse. */
  lemma {:induction false} PremedRoundTrip(drug: string, route: string, timing: string)
    requires CleanField(drug) && CleanField(route) && CleanField(timing)
    ensures FlattenPremed(PremedEntry(drug, route, timing)).Some?
    ensures ParsePremed(FlattenPremed(PremedEntry(drug, route, timing)).value) == PremedEntry(drug, route, timing)
  {
    PremedLine(drug, route, timing);
    PremedParseBack(drug, route, timing, FlattenPremed(PremedEntry(drug, route, timing)).value);
  }

  lemma {:induction false} PremedParseBack(drug: string, route: string, timing: string, line: string)
    requires CleanField(drug) && CleanField(route) && CleanField(timing)
    requires line == Text.Join([drug, route, timing], " | ")
    ensures ParsePremed(line) == PremedEntry(drug, route, timing)
  {
    var xs := [drug, route, timing];
    BarLineParts(xs);
    MapTrimClean(xs);
    ParsePremedOf(line, drug, route, timing);
  }

  lemma {:induction false} TypeNoteLine(kind: string, notes: string)
    ensures FlattenTypeNote(TypeNoteEntry(kind, notes)) == Some(Text.Join([kind, notes], " | "))
  {
    var e := TypeNoteEntry(kind, notes);
    var fs := e.fields;
    assert fs[1..] == [("notes", JStr(notes))];
    assert Get(fs[1..], "notes") == Some(JStr(notes));
    assert FieldText(e, "type") == kind;
    assert FieldText(e, "notes") == notes;
    assert [kind, notes][1..] == [notes];
    assert Text.Join([notes], " | ") == notes;
  }

  /** A type/notes object with clean string fields comes back unchanged from flatten-then-parse. */
  lemma {:induction false} TypeNoteRoundTrip(kind: string, notes: string)
    requires CleanField(kind) && CleanField(notes)
    ensures FlattenTypeNote(TypeNoteEntry(kind, notes)).Some?
    ensures ParseTypeNote(FlattenTypeNote(TypeNoteEntry(kind, notes)).value) == TypeNoteEntry(kind, notes)
  {
    TypeNoteLine(kind, notes);
    TypeNoteParseBack(kind, notes, FlattenTypeNote(TypeNoteEntry(kind, notes)).value);
  }

  lemma {:induction false} TypeNoteParseBack(kind: string, notes: string, line: string)
    requires CleanField(kind) && CleanField(notes)
    requires line == Text.Join([kind, notes], " | ")
    ensures ParseTypeNote(line) == TypeNoteEntry(kind, notes)
  {
    var xs := [kind, notes];
    BarLineParts(xs);
    MapTrimClean(xs);
    ParseTypeNoteOf(line, kind, notes);
  }

  /** A line with two or more `|`-parts reads as its first two trimmed parts; any third part
      is ignored. */
  lemma {:induction false} TypeNoteIgnoresThirdPart(kind: string, notes: string, rest: string)
    requires '|' !in kind && '|' !in notes
    ensures ParseTypeNote(kind + "|" + notes + "|" + rest) == TypeNoteEntry(Text.Trim(kind), Text.Trim(notes))
  {
    Text.SplitAfterPiece(kind, '|', notes + "|" + rest);
    assert kind + "|" + notes + "|" + rest == kind + ['|'] + (notes + ['|'] + rest);
    Text.SplitAfterPiece(notes, '|', rest);
  }

  /** A line without `|` is kept whole as the premedication's drug. */
  lemma {:induction false} PremedSinglePart(line: string)
    requires '|' !in line
    ensures ParsePremed(line) == PremedEntry(line, "", "")
  {
    Text.SplitNoSep(line, '|');
  }

  /** Lists of clean premedications survive flatten-then-parse. */
  lemma {:induction false} PremedsRoundTrip(ps: seq<(string, string, string)>, objs: seq<Json>)
    requires |objs| == |ps|
    requires forall i :: 0 <= i < |ps| ==>
      objs[i] == PremedEntry(ps[i].0, ps[i].1, ps[i].2) &&
      CleanField(ps[i].0) && CleanField(ps[i].1) && CleanField(ps[i].2)
    ensures FlattenList(Premedications, JArr(objs)).Some?
    ensures ParseList(Premedications, FlattenList(Premedications, JArr(objs)).value) == objs
  {
    forall i | 0 <= i < |ps|
      ensures FlattenPremed(objs[i]).Some? && ParsePremed(FlattenPremed(objs[i]).value) == objs[i]
    {
      PremedRoundTrip(ps[i].0, ps[i].1, ps[i].2);
    }
    var lines := FlattenList(Premedications, JArr(objs)).value;
    assert ParseList(Premedications, lines) == objs;
  }

  /** A prophylaxis or supportive-care list with clean fields comes back unchanged when its
      flattened lines are parsed again. */
  lemma {:induction false} TypeNotesRoundTrip(ts: seq<(string, string)>, objs: seq<Json>)
    requires |objs| == |ts|
    requires forall i :: 0 <= i < |ts| ==>
      objs[i] == TypeNoteEntry(ts[i].0, ts[i].1) && CleanField(ts[i].0) && CleanField(ts[i].1)
    ensures FlattenList(TypeNotes, JArr(objs)).Some?
    ensures ParseList(TypeNotes, FlattenList(TypeNotes, JArr(objs)).value) == objs
  {
    forall i | 0 <= i < |ts|
      ensures FlattenTypeNote(objs[i]).Some? && ParseTypeNote(FlattenTypeNote(objs[i]).value) == objs[i]
    {
      TypeNoteRoundTrip(ts[i].0, ts[i].1);
    }
    var lines := FlattenList(TypeNotes, JArr(objs)).value;
    assert ParseList(TypeNotes, lines) == objs;
  }

  /** A side-effect key or value that survives the `key: value | ...` line: non-empty,
      trimmed, and free of both separators. */
  predicate CleanPairField(s: string) {
    s != "" && CleanField(s) && ':' !in s
  }

  /** The object fields of a list of string pairs. */
  function StrFields(kvs: seq<(string, string)>): (r: seq<(string, Json)>)
    ensures |r| == |kvs| && forall i :: 0 <= i < |kvs| ==> r[i] == (kvs[i].0, JStr(kvs[i].1))
  {
    if kvs == [] then [] else [(kvs[0].0, JStr(kvs[0].1))] + StrFields(kvs[1..])
  }

  /** `key: value` texts of a list of string pairs. */
  function PairTexts(kvs: seq<(string, string)>): (r: seq<string>)
    ensures |r| == |kvs| && forall i :: 0 <= i < |kvs| ==> r[i] == kvs[i].0 + ": " + kvs[i].1
  {
    if kvs == [] then [] else [kvs[0].0 + ": " + kvs[0].1] + PairTexts(kvs[1..])
  }

  predicate DistinctKeys(kvs: seq<(string, string)>) {
    forall i, j :: 0 <= i < j < |kvs| ==> kvs[i].0 != kvs[j].0
  }

  /** A clean `key: value` part reads back as that pair. */
  lemma {:induction false} EntryOfPair(k: string, v: string)
    requires CleanPairField(k) && CleanPairField(v)
    ensures EntryOf(k + ": " + v) == Some((k, v))
  {
    assert k + ": " + v == k + [':'] + (" " + v);
    Text.SplitAfterPiece(k, ':', " " + v);
    Text.SplitNoSep(" " + v, ':');
    var kv := Text.MapTrim(Text.Split(k + ": " + v, ':'));
    assert Text.Split(k + ": " + v, ':') == [k, " " + v];
    Text.TrimWhitePrefix(' ', v);
    assert kv == [k, v];
  }

  /** Each part contributes the pair at the same position. */
  predicate ReadsAs(parts: seq<string>, kvs: seq<(string, string)>)
    decreases |parts|
  {
    |parts| == |kvs| && (parts == [] || (EntryOf(parts[0]) == Some(kvs[0]) && ReadsAs(parts[1..], kvs[1..])))
  }

  /** Every `key: value` text of clean pairs reads back as its pair. */
  lemma {:induction false} PairTextsReadBack(kvs: seq<(string, string)>)
    requires forall i :: 0 <= i < |kvs| ==> CleanPairField(kvs[i].0) && CleanPairField(kvs[i].1)
    ensures ReadsAs(PairTexts(kvs), kvs)
    decreases |kvs|
  {
    if kvs != [] {
      EntryOfPair(kvs[0].0, kvs[0].1);
      PairTextsReadBack(kvs[1..]);
      assert PairTexts(kvs)[1..] == PairTexts(kvs[1..]);
    }
  }

  /** Parts that each contribute a fresh key, all keys distinct, append their pairs in order. */
  lemma {:induction false} BuildEntriesFresh(acc: seq<(string, Json)>, parts: seq<string>, kvs: seq<(string, string)>)
    requires ReadsAs(parts, kvs)
    requires DistinctKeys(kvs)
    requires forall i :: 0 <= i < |kvs| ==> kvs[i].0 !in KeySeq(acc)
    ensures BuildEntries(acc, parts) == acc + StrFields(kvs)
    decreases |kvs|
  {
    if kvs != [] {
      var k, v, rest := kvs[0].0, kvs[0].1, kvs[1..];
      var acc' := acc + [(k, JStr(v))];
      FreshRest(acc, kvs);
      BuildEntriesFresh(acc', parts[1..], rest);
      FreshStep(acc, parts, kvs);
    }
  }

  /** After the first pair is added, the remaining keys are still fresh. */
  lemma {:induction false} FreshRest(acc: seq<(string, Json)>, kvs: seq<(string, string)>)
    requires |kvs| > 0 && DistinctKeys(kvs)
    requires forall i :: 0 <= i < |kvs| ==> kvs[i].0 !in KeySeq(acc)
    ensures forall i :: 1 <= i < |kvs| ==> kvs[i].0 !in KeySeq(acc + [(kvs[0].0, JStr(kvs[0].1))])
    ensures DistinctKeys(kvs[1..])
  {
    var acc' := acc + [(kvs[0].0, JStr(kvs[0].1))];
    KeysPut(acc, kvs[0].0, JStr(kvs[0].1));
    assert KeySeq(acc') == KeySeq(acc) + [kvs[0].0];
  }

  /** One step of `BuildEntriesFresh`. */
  lemma {:induction false} FreshStep(acc: seq<(string, Json)>, parts: seq<string>, kvs: seq<(string, string)>)
    requires |parts| == |kvs| > 0
    requires EntryOf(parts[0]) == Some(kvs[0]) && kvs[0].0 !in KeySeq(acc)
    requires BuildEntries(acc + [(kvs[0].0, JStr(kvs[0].1))], parts[1..])
          == acc + [(kvs[0].0, JStr(kvs[0].1))] + StrFields(kvs[1..])
    ensures BuildEntries(acc, parts) == acc + StrFields(kvs)
  {
    var x := (kvs[0].0, JStr(kvs[0].1));
    assert AddPart(acc, parts[0]) == acc + [x];
    assert StrFields(kvs) == [x] + StrFields(kvs[1..]);
    AppendAssoc(acc, x, StrFields(kvs[1..]));
  }

  lemma {:induction false} AppendAssoc<T>(a: seq<T>, x: T, b: seq<T>)
    ensures a + [x] + b == a + ([x] + b)
  {
  }

  /** The line written for a non-empty list of pairs holds a `:`. */
  lemma {:induction false} PairLineHasColon(kvs: seq<(string, string)>)
    requires |kvs| >= 1 && kvs[0].0 != ""
    ensures ':' in Text.Join(PairTexts(kvs), " | ")
  {
    var texts := PairTexts(kvs);
    var line := Text.Join(texts, " | ");
    if |texts| > 1 {
      JoinBarsCons(texts);
    }
    assert line[..|texts[0]|] == texts[0];
    assert line[|kvs[0].0|] == texts[0][|kvs[0].0|] == ':';
  }

  lemma {:induction false} SideEffectLine(kvs: seq<(string, string)>)
    ensures FlattenSideEffect(JObj(StrFields(kvs))) == Some(Text.Join(PairTexts(kvs), " | "))
  {
    assert EntryTexts(StrFields(kvs)) == PairTexts(kvs);
  }

  lemma {:induction false} PairTextsNoBar(kvs: seq<(string, string)>)
    requires forall i :: 0 <= i < |kvs| ==> '|' !in kvs[i].0 && '|' !in kvs[i].1
    ensures forall i :: 0 <= i < |kvs| ==> '|' !in PairTexts(kvs)[i]
  {
  }

  lemma {:induction false} SideEffectParseBack(kvs: seq<(string, string)>, line: string)
    requires |kvs| >= 1
    requires forall i :: 0 <= i < |kvs| ==> CleanPairField(kvs[i].0) && CleanPairField(kvs[i].1)
    requires DistinctKeys(kvs)
    requires line == Text.Join(PairTexts(kvs), " | ")
    ensures ParseSideEffect(line) == JObj(StrFields(kvs))
  {
    PairLineHasColon(kvs);
    PairTextsNoBar(kvs);
    BuildEntriesBarLine([], PairTexts(kvs));
    PairTextsReadBack(kvs);
    BuildEntriesFresh([], PairTexts(kvs), kvs);
    assert [] + StrFields(kvs) == StrFields(kvs);
  }

  /** A side-effect object of clean string pairs with distinct keys comes back unchanged from
      flatten-then-parse. */
  lemma {:induction false} SideEffectRoundTrip(kvs: seq<(string, string)>)
    requires |kvs| >= 1
    requires forall i :: 0 <= i < |kvs| ==> CleanPairField(kvs[i].0) && CleanPairField(kvs[i].1)
    requires DistinctKeys(kvs)
    ensures FlattenSideEffect(JObj(StrFields(kvs))).Some?
    ensures ParseSideEffect(FlattenSideEffect(JObj(StrFields(kvs))).value) == JObj(StrFields(kvs))
  {
    SideEffectLine(kvs);
    SideEffectParseBack(kvs, FlattenSideEffect(JObj(StrFields(kvs))).value);
  }

  // ---------------------------------------------------------------- through the text area

  /** A field that also fits on one line of a text area. */
  predicate FormField(s: string) {
    CleanField(s) && '\n' !in s
  }

  /** White space in front of a line changes none of its trimmed pieces. */
  lemma {:induction false} MapTrimSplitWhitePrefixes(pre: string, s: string, sep: char)
    requires !Text.IsWhite(sep)
    requires forall i :: 0 <= i < |pre| ==> Text.IsWhite(pre[i])
    ensures Text.MapTrim(Text.Split(pre + s, sep)) == Text.MapTrim(Text.Split(s, sep))
    decreases |pre|
  {
    if pre != [] {
      MapTrimSplitWhitePrefixes(pre[1..], s, sep);
      assert pre + s == [pre[0]] + (pre[1..] + s);
      MapTrimSplitWhitePrefix(pre[0], pre[1..] + s, sep);
    } else {
      assert pre + s == s;
    }
  }

  /** White space after a line changes none of its trimmed pieces. */
  lemma {:induction false} MapTrimSplitWhiteSuffixes(s: string, post: string, sep: char)
    requires !Text.IsWhite(sep)
    requires forall i :: 0 <= i < |post| ==> Text.IsWhite(post[i])
    ensures Text.MapTrim(Text.Split(s + post, sep)) == Text.MapTrim(Text.Split(s, sep))
    decreases |post|
  {
    if post != [] {
      var n := |post|;
      MapTrimSplitWhiteSuffixes(s, post[..n - 1], sep);
      assert s + post == (s + post[..n - 1]) + [post[n - 1]];
      MapTrimSplitWhiteSuffix(s + post[..n - 1], post[n - 1], sep);
    } else {
      assert s + post == s;
    }
  }

  /** Trimming a whole line changes none of its trimmed pieces. */
  lemma {:induction false} MapTrimSplitTrim(line: string, sep: char)
    requires !Text.IsWhite(sep)
    ensures Text.MapTrim(Text.Split(Text.Trim(line), sep)) == Text.MapTrim(Text.Split(line, sep))
  {
    Text.TrimInfix(line);
    var r, i := Text.Trim(line), |line| - |Text.TrimStart(line)|;
    var pre, post := line[..i], line[i + |r|..];
    assert line == pre + (r + post);
    MapTrimSplitWhiteSuffixes(r, post, sep);
    MapTrimSplitWhitePrefixes(pre, r + post, sep);
  }

  /** A premedication or type/notes line of two or more `|`-parts is not blank, and the
      text area's trimming does not change how it parses. */
  lemma {:induction false} BarLineTrim(c: Codec, line: string)
    requires c != SideEffects
    requires |Text.Split(line, '|')| >= 2
    ensures Text.Trim(line) != ""
    ensures ParseEntry(c, Text.Trim(line)) == ParseEntry(c, line)
  {
    MapTrimSplitTrim(line, '|');
    assert |Text.MapTrim(Text.Split(Text.Trim(line), '|'))| >= 2;
  }

  /** Lines of two or more `|`-parts, written to a text area and read back on save, parse to
      what they parsed to before. */
  lemma {:induction false} BarLinesThroughForm(c: Codec, lines: seq<string>)
    requires c != SideEffects
    requires forall i :: 0 <= i < |lines| ==> '\n' !in lines[i] && |Text.Split(lines[i], '|')| >= 2
    ensures ParseList(c, Text.Lines(Text.JoinLines(lines))) == ParseList(c, lines)
  {
    forall i | 0 <= i < |lines|
      ensures Text.Trim(lines[i]) != "" && ParseEntry(c, Text.Trim(lines[i])) == ParseEntry(c, lines[i])
    {
      BarLineTrim(c, lines[i]);
    }
    Text.LinesJoinLinesTrim(lines);
  }

  /** A character in no part is not in their `|`-joined line either. */
  lemma {:induction false} BarJoinAvoids(xs: seq<string>, c: char)
    requires c != ' ' && c != '|'
    requires forall i :: 0 <= i < |xs| ==> c !in xs[i]
    ensures c !in Text.Join(xs, " | ")
    decreases |xs|
  {
    if |xs| > 1 {
      BarJoinAvoids(xs[1..], c);
      JoinBarsCons(xs);
    }
  }

  /** The line of a premedication with single-line clean fields stays on one line and has
      three `|`-parts. */
  lemma {:induction false} PremedFormLine(drug: string, route: string, timing: string)
    requires FormField(drug) && FormField(route) && FormField(timing)
    ensures FlattenPremed(PremedEntry(drug, route, timing)).Some?
    ensures var line := FlattenPremed(PremedEntry(drug, route, timing)).value;
      '\n' !in line && |Text.Split(line, '|')| >= 2
  {
    var xs := [drug, route, timing];
    PremedLine(drug, route, timing);
    BarJoinAvoids(xs, '\n');
    BarLineParts(xs);
  }

  /** The line of a type/notes entry with single-line clean fields stays on one line and has
      two `|`-parts. */
  lemma {:induction false} TypeNoteFormLine(kind: string, notes: string)
    requires FormField(kind) && FormField(notes)
    ensures FlattenTypeNote(TypeNoteEntry(kind, notes)).Some?
    ensures var line := FlattenTypeNote(TypeNoteEntry(kind, notes)).value;
      '\n' !in line && |Text.Split(line, '|')| >= 2
  {
    var xs := [kind, notes];
    TypeNoteLine(kind, notes);
    BarJoinAvoids(xs, '\n');
    BarLineParts(xs);
  }

  /** A premedication list with single-line clean fields survives the whole edit: flattened
      into the text area, joined with line breaks, read back line by line and parsed on save. */
  lemma {:induction false} PremedsThroughForm(ps: seq<(string, string, string)>, objs: seq<Json>)
    requires |objs| == |ps|
    requires forall i :: 0 <= i < |ps| ==>
      objs[i] == PremedEntry(ps[i].0, ps[i].1, ps[i].2) &&
      FormField(ps[i].0) && FormField(ps[i].1) && FormField(ps[i].2)
    ensures FlattenList(Premedications, JArr(objs)).Some?
    ensures ParseList(Premedications,
              Text.Lines(Text.JoinLines(FlattenList(Premedications, JArr(objs)).value))) == objs
  {
    PremedsRoundTrip(ps, objs);
    var lines := FlattenList(Premedications, JArr(objs)).value;
    forall i | 0 <= i < |lines| ensures '\n' !in lines[i] && |Text.Split(lines[i], '|')| >= 2 {
      PremedFormLine(ps[i].0, ps[i].1, ps[i].2);
    }
    BarLinesThroughForm(Premedications, lines);
  }

  /** A prophylaxis or supportive-care list with single-line clean fields survives the whole
      edit, as `PremedsThroughForm` states for premedications. */
  lemma {:induction false} TypeNotesThroughForm(ts: seq<(string, string)>, objs: seq<Json>)
    requires |objs| == |ts|
    requires forall i :: 0 <= i < |ts| ==>
      objs[i] == TypeNoteEntry(ts[i].0, ts[i].1) && FormField(ts[i].0) && FormField(ts[i].1)
    ensures FlattenList(TypeNotes, JArr(objs)).Some?
    ensures ParseList(TypeNotes, Text.Lines(Text.JoinLines(FlattenList(TypeNotes, JArr(objs)).value))) == objs
  {
    TypeNotesRoundTrip(ts, objs);
    var lines := FlattenList(TypeNotes, JArr(objs)).value;
    forall i | 0 <= i < |lines| ensures '\n' !in lines[i] && |Text.Split(lines[i], '|')| >= 2 {
      TypeNoteFormLine(ts[i].0, ts[i].1);
    }
    BarLinesThroughForm(TypeNotes, lines);
  }

  /** A side-effect key or value that survives the text area too: clean and on one line. */
  predicate FormPairField(s: string) {
    CleanPairField(s) && '\n' !in s
  }

  /** A side-effect object the text area gives back: at least one pair, distinct keys, and
      every key and value a `FormPairField`. */
  predicate FormPairs(kvs: seq<(string, string)>) {
    |kvs| >= 1 && DistinctKeys(kvs) &&
    forall i :: 0 <= i < |kvs| ==> FormPairField(kvs[i].0) && FormPairField(kvs[i].1)
  }

  /** A `|`-joined line of non-empty parts starts with its first part and ends with its last. */
  lemma {:induction false} BarJoinEnds(xs: seq<string>)
    requires |xs| >= 1 && forall i :: 0 <= i < |xs| ==> xs[i] != ""
    ensures var j, last := Text.Join(xs, " | "), xs[|xs| - 1];
      j != "" && j[0] == xs[0][0] && j[|j| - 1] == last[|last| - 1]
    decreases |xs|
  {
    if |xs| > 1 {
      BarJoinEnds(xs[1..]);
      JoinBarsCons(xs);
    }
  }

  /** The `key: value | ...` line of such pairs is non-empty, trimmed and on one line. */
  lemma {:induction false} PairLineForm(kvs: seq<(string, string)>)
    requires FormPairs(kvs)
    ensures var line := Text.Join(PairTexts(kvs), " | ");
      line != "" && Text.IsTrimmed(line) && '\n' !in line
  {
    var texts := PairTexts(kvs);
    var n := |kvs|;
    forall i | 0 <= i < n ensures texts[i] != "" && '\n' !in texts[i] {
      assert texts[i] == kvs[i].0 + ": " + kvs[i].1;
    }
    BarJoinAvoids(texts, '\n');
    BarJoinEnds(texts);
    var k, v := kvs[0].0, kvs[n - 1].1;
    assert Text.IsTrimmed(k) && Text.IsTrimmed(v);
    assert texts[0][0] == k[0];
    assert texts[n - 1][|texts[n - 1]| - 1] == v[|v| - 1];
  }

  /** The line of such a side-effect object is non-empty, trimmed, on one line, and parses
      back to the object. */
  lemma {:induction false} SideEffectFormLine(kvs: seq<(string, string)>)
    requires FormPairs(kvs)
    ensures FlattenSideEffect(JObj(StrFields(kvs))).Some?
    ensures var line := FlattenSideEffect(JObj(StrFields(kvs))).value;
      line != "" && Text.IsTrimmed(line) && '\n' !in line &&
      ParseSideEffect(line) == JObj(StrFields(kvs))
  {
    SideEffectRoundTrip(kvs);
    SideEffectLine(kvs);
    PairLineForm(kvs);
  }

  /** A list of side-effect objects survives the whole edit: flattened into the text area,
      joined with line breaks, read back line by line and parsed on save. */
  lemma {:induction false} SideEffectsThroughForm(kvss: seq<seq<(string, string)>>, objs: seq<Json>)
    requires |objs| == |kvss|
    requires forall i :: 0 <= i < |kvss| ==> objs[i] == JObj(StrFields(kvss[i])) && FormPairs(kvss[i])
    ensures FlattenList(SideEffects, JArr(objs)).Some?
    ensures ParseList(SideEffects, Text.Lines(Text.JoinLines(FlattenList(SideEffects, JArr(objs)).value))) == objs
  {
    forall i | 0 <= i < |kvss|
      ensures FlattenSideEffect(objs[i]).Some?
      ensures var line := FlattenSideEffect(objs[i]).value;
        line != "" && Text.IsTrimmed(line) && '\n' !in line && ParseSideEffect(line) == objs[i]
    {
      SideEffectFormLine(kvss[i]);
    }
    var lines := FlattenList(SideEffects, JArr(objs)).value;
    Text.LinesJoinLines(lines);
  }
}
