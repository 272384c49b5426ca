/** The medication editor's page state: the catalogue `APP_DATA`, the selected bucket
    `CURRENT_CATEGORY`, the drug being edited `currentEditIndex` and whether the edit dialog
    is open. Each handler is a method proved against the catalogue functions of
    `MedicationGroups`. */
module MedicationEditor {
  import opened Wrappers
  import opened Json
  import opened Medications
  import opened MedicationGroups
  import opened Lists

  /** The regrouping loop of `processLoadedData`: the `drugs` arrays of the values, one
      after the other; a `null` value throws (`None`). */
  method GatherDrugs(vs: seq<Json>) returns (r: Option<seq<Json>>)
    ensures r == CollectValues(vs)
  {
    var items := [];
    var i := 0;
    while i < |vs|
      invariant 0 <= i <= |vs|
      invariant CollectValues(vs[..i]) == Some(items)
    {
      var v := vs[i];
      if v == JNull {
        assert vs[i] == JNull;
        return None;
      }
      var drugs := Member(v, "drugs");
      assert vs[..i + 1] == vs[..i] + [v];
      if drugs.Some? && drugs.value.JArr? {
        CollectAppends(vs[..i], v, drugs.value.items);
        items := items + drugs.value.items;
      } else {
        CollectDropsOthers(vs[..i], v);
      }
      i := i + 1;
    }
    assert vs[..i] == vs;
    r := Some(items);
  }

  class Editor {
    var order: seq<char>
    var buckets: map<char, seq<Drug>>
    var current: Option<char>
    var editIndex: Option<nat>
    var modalOpen: bool

    /** The catalogue held by the page. */
    function Data(): Catalog
      reads this
    {
      Catalog(order, buckets)
    }

    predicate Valid()
      reads this
    {
      MedicationGroups.Valid(Data())
    }

    /** The page as it starts: no data, nothing selected, the dialog closed. */
    constructor ()
      ensures Valid() && Data() == Empty()
      ensures current == None && editIndex == None && !modalOpen
    {
      order, buckets := [], map[];
      current, editIndex, modalOpen := None, None, false;
    }

    /** `processLoadedData`: the catalogue is rebuilt from the parsed file. `ok` is false
        when the source throws part-way; the catalogue is then what it had filed so far.
        The selection and the dialog are not touched. */
    method Load(json: Json) returns (ok: bool)
      modifies this
      ensures Valid()
      ensures Loaded(Data(), ok) == LoadJson(json)
      ensures current == old(current) && editIndex == old(editIndex) && modalOpen == old(modalOpen)
    {
      order, buckets := [], map[];
      var items: seq<Json>;
      if json.JArr? {
        items := json.items;
      } else if json.JObj? {
        var gathered := GatherDrugs(FieldValues(json.fields));
        if gathered.None? {
          return false;
        }
        items := gathered.value;
      } else if json == JNull {
        return false;
      } else {
        items := [];
      }
      assert LoadJson(json) == LoadItems(items);
      ok := FileItems(items);
    }

    /** The filing loop shared by both branches of the load. */
    method FileItems(items: seq<Json>) returns (ok: bool)
      requires Data() == Empty()
      modifies this
      ensures Valid()
      ensures Loaded(Data(), ok) == LoadItems(items)
      ensures current == old(current) && editIndex == old(editIndex) && modalOpen == old(modalOpen)
    {
      ghost var es := Prepare(items);
      var i := 0;
      while i < |items|
        invariant 0 <= i <= |items|
        invariant FileAll(es[..i]) == Loaded(Data(), true)
        invariant current == old(current) && editIndex == old(editIndex) && modalOpen == old(modalOpen)
      {
        var key := KeyOf(items[i]);
        if key.None? {
          FileAllOk(es[..i]);
          FileAllStops(es, i);
          assert es[..|es|] == es;
          FileAllValid(es);
          return false;
        }
        var c := AddDrug(Data(), key.value, NormalizeDrug(items[i]));
        assert es[..i + 1][..i] == es[..i];
        order, buckets := c.order, c.buckets;
        i := i + 1;
      }
      assert es[..i] == es;
      FileAllValid(es);
      ok := true;
    }

    /** Clicking a bucket in the sidebar selects it. */
    method SelectCategory(k: char)
      modifies this
      ensures current == Some(k)
      ensures Data() == old(Data()) && editIndex == old(editIndex) && modalOpen == old(modalOpen)
    {
      current := Some(k);
    }

    /** `deleteDrug`: after confirmation the drug at `index` leaves bucket `k`; without
        confirmation, or when the bucket does not exist (the source throws), nothing
        changes. */
    method DeleteDrug(k: char, index: nat, confirmed: bool)
      requires Valid()
      modifies this
      ensures Valid()
      ensures Data() == if confirmed then MedicationGroups.DeleteDrug(old(Data()), k, index) else old(Data())
      ensures current == old(current) && editIndex == old(editIndex) && modalOpen == old(modalOpen)
    {
      if confirmed && k in buckets {
        buckets := buckets[k := RemoveAt(buckets[k], index)];
      }
    }

    /** `openDrugModal`: with a bucket selected, the dialog opens and remembers which drug
        it edits (`None` for a new one); with none selected nothing happens. The index is
        recorded before the drug is read, so it is kept even when that read throws. */
    method OpenDrugModal(index: Option<nat>)
      modifies this
      ensures old(current).None? ==> editIndex == old(editIndex) && modalOpen == old(modalOpen)
      ensures old(current).Some? ==> editIndex == index && modalOpen
      ensures Data() == old(Data()) && current == old(current)
    {
      if current.Some? {
        editIndex := index;
        modalOpen := true;
      }
    }

    /** `closeModal`: the dialog closes and forgets the edit index. */
    method CloseModal()
      modifies this
      ensures !modalOpen && editIndex == None
      ensures Data() == old(Data()) && current == old(current)
    {
      modalOpen := false;
      editIndex := None;
    }

    /** `saveDrugFromModal`: the drug read from the form is pushed onto the selected bucket,
        or replaces the drug being edited, and the dialog closes. Without a selection, or
        when the selected bucket no longer exists (the source throws), nothing changes. */
    method SaveDrug(form: DrugForm)
      requires Valid()
      modifies this
      ensures Valid()
      ensures old(current).Some? && old(current).value in old(buckets) ==>
        Data() == MedicationGroups.SaveDrug(old(Data()), old(current).value, old(editIndex), DrugFromForm(form)) &&
        editIndex == None && !modalOpen
      ensures !(old(current).Some? && old(current).value in old(buckets)) ==>
        Data() == old(Data()) && editIndex == old(editIndex) && modalOpen == old(modalOpen)
      ensures current == old(current)
    {
      if current.Some? && current.value in buckets {
        var k := current.value;
        buckets := buckets[k := PlaceAt(buckets[k], editIndex, DrugFromForm(form))];
        CloseModal();
      }
    }

    /** `downloadJSON`: the flat list of exported records, bucket by bucket in enumeration
        order and each bucket in index order. */
    method Export() returns (list: seq<Json>)
      requires Valid()
      ensures list == ExportCatalog(Data())
    {
      list := [];
      var i := 0;
      while i < |order|
        invariant 0 <= i <= |order|
        invariant list == ExportOrder(order[..i], buckets)
      {
        var drugs := buckets[order[i]];
        ghost var before := list;
        var j := 0;
        while j < |drugs|
          invariant 0 <= j <= |drugs|
          invariant list == before + ExportBucket(drugs)[..j]
        {
          assert ExportBucket(drugs)[..j + 1] == ExportBucket(drugs)[..j] + [ExportDrug(drugs[j])];
          list := list + [ExportDrug(drugs[j])];
          j := j + 1;
        }
        assert ExportBucket(drugs)[..j] == ExportBucket(drugs);
        assert order[..i + 1] == order[..i] + [order[i]];
        ExportOrderSnoc(order[..i], order[i], buckets);
        i := i + 1;
      }
      assert order[..i] == order;
    }
  }
}
