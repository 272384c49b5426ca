/** The IV-compatibility page's state: the list `INTERACTIONS` and the edited position
    `EDIT_INDEX`. Each handler is a method proved against the functions of `Interactions`
    and `InteractionViews`. */
module InteractionStore {
  import opened Wrappers
  import opened Json
  import opened Lists
  import AutoNote
  import opened Interactions
  import opened InteractionViews

  /** The source `clearModalInputs` puts in the dialog. */
  const DefaultSource: string := "Trissel’s 2 IV Compatibility"

  /** The dialog's four selects with nothing chosen. */
  const Unselected: AutoNote.Compat := AutoNote.Compat("", "", "", "")

  /** `json.map(...)` over a saved list: the records in order, or `None` at the first
      `null` element. */
  method ReadList(items: seq<Json>) returns (r: Option<seq<Interaction>>)
    ensures r == ListLoad(items)
  {
    var out: seq<Interaction> := [];
    var i := 0;
    while i < |items|
      invariant 0 <= i <= |items|
      invariant JNull !in items[..i]
      invariant |out| == i && forall k :: 0 <= k < i ==> Some(out[k]) == ListRecord(items[k])
    {
      if items[i] == JNull {
        assert items[i] in items;
        return None;
      }
      assert items[..i + 1] == items[..i] + [items[i]];
      out := out + [ListRecord(items[i]).value];
      i := i + 1;
    }
    assert items[..i] == items;
    assert out == ListLoad(items).value;
    r := Some(out);
  }

  /** Once a run has thrown, later steps change nothing. */
  lemma {:induction false} FillStops(a: seq<Cell>, b: seq<Cell>)
    requires !Fill(a).ok
    ensures Fill(a + b) == Fill(a)
  {
    FillAppend(a, b);
  }

  /** `clearModalInputs`: empty names, note and selects, and the default source. */
  method ClearModalInputs() returns (f: Form)
    ensures f.drugA == "" && f.drugB == "" && f.note == "" && f.source == DefaultSource
    ensures f.compat.ySite == "" && f.compat.admixture == "" && f.compat.syringe == "" && f.compat.solution == ""
  {
    f := Form("", "", "", DefaultSource, Unselected);
  }

  /** The dialog's note is the one generated from its selects and its first name. */
  predicate NoteCurrent(f: Form) {
    f.note == AutoNote.FormNote(f.compat, f.drugA)
  }

  /** `updateAutoNote`: the dialog with its note regenerated from its selects and its first
      name; nothing else in it changes. */
  method UpdateAutoNote(f: Form) returns (g: Form)
    ensures g.drugA == f.drugA && g.drugB == f.drugB && g.source == f.source && g.compat == f.compat
    ensures NoteCurrent(g)
  {
    g := f.(note := AutoNote.FormNote(f.compat, f.drugA));
  }

  /** Once the walk of the first `k` drugs has thrown, the rest of the matrix is never
      reached. */
  lemma {:induction false} MatrixStops(fs: seq<(string, Json)>, k: nat, now: string)
    requires k <= |fs| && !Fill(MatrixCells(fs[..k], now)).ok
    ensures Fill(MatrixCells(fs, now)) == Fill(MatrixCells(fs[..k], now))
    decreases |fs|
  {
    if k < |fs| {
      var p := fs[..|fs| - 1];
      assert p[..k] == fs[..k];
      MatrixStops(p, k, now);
      FillStops(MatrixCells(p, now), SubMapCells(fs[|fs| - 1].0, fs[|fs| - 1].1, now));
    } else {
      assert fs[..k] == fs;
    }
  }

  /** One more entry of a sub-map adds its step at the end of the row. */
  lemma {:induction false} RowCellsSnoc(drugA: string, es: seq<(string, Json)>, j: nat, now: string)
    requires j < |es|
    ensures RowCells(drugA, es[..j + 1], now) == RowCells(drugA, es[..j], now) + [CellOf(drugA, es[j], now)]
  {
  }

  /** Once the steps `a + b` have thrown, steps added after `b` change nothing. */
  lemma {:induction false} FillStopsAfter(a: seq<Cell>, b: seq<Cell>, c: seq<Cell>)
    requires !Fill(a + b).ok
    ensures Fill(a + (b + c)) == Fill(a + b)
  {
    assert a + (b + c) == (a + b) + c;
    FillStops(a + b, c);
  }

  /** A row is the steps of its first `k` entries followed by those of the others. */
  lemma {:induction false} RowCellsSplit(drugA: string, es: seq<(string, Json)>, k: nat, now: string)
    requires k <= |es|
    ensures RowCells(drugA, es, now) == RowCells(drugA, es[..k], now) + RowCells(drugA, es[k..], now)
  {
  }

  /** Once the first `k` entries of a row have thrown, the rest of the row is never reached. */
  lemma {:induction false} RowStops(done: seq<Cell>, drugA: string, es: seq<(string, Json)>, k: nat, now: string)
    requires k <= |es| && !Fill(done + RowCells(drugA, es[..k], now)).ok
    ensures Fill(done + RowCells(drugA, es, now)) == Fill(done + RowCells(drugA, es[..k], now))
  {
    RowCellsSplit(drugA, es, k, now);
    FillStopsAfter(done, RowCells(drugA, es[..k], now), RowCells(drugA, es[k..], now));
  }

  class Store {
    var list: seq<Interaction>
    var editIndex: Option<nat>

    /** The page as it starts: an empty list and no record being edited. */
    constructor ()
      ensures list == [] && editIndex == None
    {
      list, editIndex := [], None;
    }

    /** `handleFileUpload` after the file is read. */
    method Load(parsed: Option<Json>, confirmed: bool, now: string) returns (ok: bool)
      modifies this
      ensures Loaded(list, ok) == LoadFile(parsed, old(list), confirmed, now)
      ensures editIndex == old(editIndex)
    {
      if parsed.None? {
        return false;
      }
      var json := parsed.value;
      list := [];
      if json.JObj? || json == JNull {
        if !confirmed {
          return true;
        }
        if json == JNull {
          return false;
        }
        ok := LoadMatrix(json.fields, now);
      } else if json.JArr? {
        var l := ReadList(json.items);
        if l.None? {
          return false;
        }
        list := l.value;
        ok := true;
      } else {
        ok := true;
      }
    }

    /** The two nested `forEach` loops over a confirmed matrix: one record pushed per entry
        of each object or array sub-map, stopping at the first throw. */
    method LoadMatrix(fs: seq<(string, Json)>, now: string) returns (ok: bool)
      requires list == []
      modifies this
      ensures Loaded(list, ok) == Fill(MatrixCells(fs, now))
      ensures editIndex == old(editIndex)
    {
      var i := 0;
      while i < |fs|
        invariant 0 <= i <= |fs|
        invariant Fill(MatrixCells(fs[..i], now)) == Loaded(list, true)
        invariant editIndex == old(editIndex)
      {
        var drugA, sub := fs[i].0, fs[i].1;
        assert fs[..i + 1][..i] == fs[..i];
        assert MatrixCells(fs[..i + 1], now) == MatrixCells(fs[..i], now) + SubMapCells(drugA, sub, now);
        ok := LoadRow(drugA, sub, now, MatrixCells(fs[..i], now));
        if !ok {
          MatrixStops(fs, i + 1, now);
          return;
        }
        i := i + 1;
      }
      assert fs[..i] == fs;
      ok := true;
    }

    /** The inner loop for one drug A, after the steps `done`: a `null` sub-map throws at
        `Object.keys`, and a `null` entry throws when its fields are read. */
    method LoadRow(drugA: string, sub: Json, now: string, ghost done: seq<Cell>) returns (ok: bool)
      requires Fill(done) == Loaded(list, true)
      modifies this
      ensures Fill(done + SubMapCells(drugA, sub, now)) == Loaded(list, ok)
      ensures editIndex == old(editIndex)
    {
      if sub == JNull {
        FillAppend(done, [Break]);
        assert list + [] == list;
        return false;
      }
      var es := Entries(sub);
      var j := 0;
      assert done + RowCells(drugA, es[..0], now) == done;
      while j < |es|
        invariant 0 <= j <= |es|
        invariant Fill(done + RowCells(drugA, es[..j], now)) == Loaded(list, true)
        invariant editIndex == old(editIndex)
      {
        var data := es[j].1;
        ghost var before := done + RowCells(drugA, es[..j], now);
        RowCellsSnoc(drugA, es, j, now);
        assert done + RowCells(drugA, es[..j + 1], now) == before + [CellOf(drugA, es[j], now)];
        FillAppend(before, [CellOf(drugA, es[j], now)]);
        if data == JNull {
          assert list + [] == list;
          RowStops(done, drugA, es, j + 1, now);
          return false;
        }
        list := list + [MatrixRecord(drugA, es[j].0, data, now)];
        j := j + 1;
      }
      assert es[..j] == es;
      ok := true;
    }

    /** `openAddModal`: nothing is being edited, and the dialog shows empty names and
        selects, the default source and the note generated for them. */
    method OpenAdd() returns (f: Form)
      modifies this
      ensures editIndex == None && list == old(list)
      ensures f.drugA == "" && f.drugB == "" && f.source == DefaultSource
      ensures f.compat.ySite == "" && f.compat.admixture == "" && f.compat.syringe == "" && f.compat.solution == ""
      ensures NoteCurrent(f)
    {
      editIndex := None;
      var blank := ClearModalInputs();
      f := UpdateAutoNote(blank);
    }

    /** `openEditModal`: the edited position is recorded first; the dialog then shows the
        record's fields with a regenerated note. A position past the end throws when the
        missing record is read, so no dialog is shown. */
    method OpenEdit(index: nat) returns (f: Option<Form>)
      modifies this
      ensures editIndex == Some(index) && list == old(list)
      ensures index < |list| ==> (f.Some? &&
        f.value == Reopened(list[index]))
      ensures index >= |list| ==> f.None?
    {
      editIndex := Some(index);
      if index >= |list| {
        return None;
      }
      var g := UpdateAutoNote(EditForm(list[index]));
      f := Some(g);
    }

    /** `saveFromModal`: the list changes only when the save is accepted. The edited
        position is not cleared. */
    method Save(f: Form, now: string) returns (v: Verdict)
      modifies this
      ensures v == Interactions.Save(old(list), old(editIndex), f, now)
      ensures list == if v.Saved? then v.list else old(list)
      ensures editIndex == old(editIndex)
    {
      v := Interactions.Save(list, editIndex, f, now);
      if v.Saved? {
        list := v.list;
      }
    }

    /** `deleteInteraction` after the confirmation dialog. */
    method Delete(index: nat, confirmed: bool)
      modifies this
      ensures list == if confirmed then RemoveAt(old(list), index) else old(list)
      ensures editIndex == old(editIndex)
    {
      if confirmed {
        list := RemoveAt(list, index);
      }
    }

    /** `downloadJSON`: the nested matrix built record by record. */
    method Export() returns (j: Json)
      ensures j == Nest(list)
    {
      j := JObj([]);
      var i := 0;
      while i < |list|
        invariant 0 <= i <= |list|
        invariant j == Nest(list[..i])
      {
        assert list[..i + 1][..i] == list[..i];
        j := NestOne(j, list[i]);
        i := i + 1;
      }
      assert list[..i] == list;
    }

    /** `updateDrugDatalist`: the collected names, sorted and without repeats. */
    method DrugNames(looksNumeric: string -> bool) returns (names: seq<string>)
      ensures StrictlySorted(names)
      ensures forall n :: n in names <==> n in NameSet(list, looksNumeric)
    {
      names := [];
      var i := 0;
      while i < |list|
        invariant 0 <= i <= |list|
        invariant StrictlySorted(names)
        invariant forall n :: n in names <==> n in NameSet(list[..i], looksNumeric)
      {
        var x := list[i];
        assert list[..i + 1][..i] == list[..i];
        if Listed(x.drugA, looksNumeric) {
          names := Insert(names, x.drugA.value.s);
        }
        if Listed(x.drugB, looksNumeric) {
          names := Insert(names, x.drugB.value.s);
        }
        i := i + 1;
      }
      assert list[..i] == list;
    }
  }
}
