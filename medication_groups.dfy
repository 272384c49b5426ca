/** The medication catalogue: drugs filed into letter buckets on load, and the flat list
    written on export. The load is specified here as functions over the parsed JSON; the
    editor's mutable store in `MedicationEditor` is proved against them. */
module MedicationGroups {
  import opened Wrappers
  import opened Json
  import Text
  import opened Medications
  import opened Lists

  // ---------------------------------------------------------------- bucket order

  /** Bucket keys in the order JavaScript enumerates them: the integer-like keys `0`-`9`
      come first in ascending order, every other key follows in insertion order. */
  predicate EnumOrdered(order: seq<char>) {
    forall i, j :: 0 <= i < j < |order| && Text.IsDigit(order[j]) ==>
      Text.IsDigit(order[i]) && order[i] < order[j]
  }

  predicate Distinct(order: seq<char>) {
    forall i, j :: 0 <= i < j < |order| ==> order[i] != order[j]
  }

  /** Where a new key goes when an object gains it: a digit key among the leading digit
      keys by value, any other key at the end. */
  function InsertKey(order: seq<char>, k: char): (r: seq<char>)
    ensures |r| == |order| + 1
    ensures forall x :: x in r <==> x == k || x in order
    ensures !Text.IsDigit(k) ==> r == order + [k]
  {
    if !Text.IsDigit(k) then order + [k]
    else if order != [] && Text.IsDigit(order[0]) && order[0] < k then
      [order[0]] + InsertKey(order[1..], k)
    else [k] + order
  }

  /** Inserting a new key keeps the enumeration order and the keys distinct. */
  lemma {:induction false} InsertKeyOrdered(order: seq<char>, k: char)
    requires EnumOrdered(order) && Distinct(order) && k !in order
    ensures EnumOrdered(InsertKey(order, k)) && Distinct(InsertKey(order, k))
  {
    var r := InsertKey(order, k);
    if !Text.IsDigit(k) {
    } else if order != [] && Text.IsDigit(order[0]) && order[0] < k {
      InsertKeyOrdered(order[1..], k);
      var t := InsertKey(order[1..], k);
      assert r == [order[0]] + t;
      forall i, j | 0 <= i < j < |r| && Text.IsDigit(r[j])
        ensures Text.IsDigit(r[i]) && r[i] < r[j]
      {
        if i == 0 {
          assert r[j] in t;
          if r[j] != k {
            var m :| 0 <= m < |order[1..]| && order[1..][m] == r[j];
            assert order[m + 1] == r[j];
          }
        }
      }
      forall i, j | 0 <= i < j < |r| ensures r[i] != r[j] {
        if i == 0 {
          assert r[j] in t;
        }
      }
    } else {
      assert r == [k] + order;
      forall i, j | 0 <= i < j < |r| && Text.IsDigit(r[j])
        ensures Text.IsDigit(r[i]) && r[i] < r[j]
      {
        if i == 0 {
          assert order[0] == r[1];
          assert Text.IsDigit(order[0]) && k <= order[0];
        }
      }
    }
  }

  // ---------------------------------------------------------------- the catalogue

  /** `APP_DATA`: bucket keys in enumeration order and each bucket's drug list. A bucket's
      `title` is its key, so it is not stored separately. */
  datatype Catalog = Catalog(order: seq<char>, buckets: map<char, seq<Drug>>)

  /** The catalogue invariant: each key once, in enumeration order, and exactly the keys
      that have a bucket. */
  predicate Valid(c: Catalog) {
    Distinct(c.order) && EnumOrdered(c.order) && forall k :: k in c.buckets <==> k in c.order
  }

  function Empty(): (c: Catalog)
    ensures Valid(c) && c.order == []
  {
    Catalog([], map[])
  }

  /** Filing one normalised drug under key `k`: a new bucket is created on first use, and
      the drug goes to the end of its bucket. */
  function AddDrug(c: Catalog, k: char, d: Drug): (r: Catalog)
    ensures k in r.buckets && r.buckets[k] == (if k in c.buckets then c.buckets[k] else []) + [d]
    ensures forall k' :: k' != k ==> (k' in r.buckets <==> k' in c.buckets)
    ensures forall k' :: k' != k && k' in c.buckets ==> r.buckets[k'] == c.buckets[k']
  {
    if k in c.buckets then Catalog(c.order, c.buckets[k := c.buckets[k] + [d]])
    else Catalog(InsertKey(c.order, k), c.buckets[k := [d]])
  }

  /** Filing a drug keeps the catalogue invariant. */
  lemma {:induction false} AddDrugValid(c: Catalog, k: char, d: Drug)
    requires Valid(c)
    ensures Valid(AddDrug(c, k, d))
  {
    if k !in c.buckets {
      InsertKeyOrdered(c.order, k);
    }
  }

  /** The result of a load: the catalogue as the source leaves it, and whether the load ran
      to the end (`false` when the source throws part-way). */
  datatype Loaded = Loaded(catalog: Catalog, ok: bool)

  /** A drug as the filing loop sees it: its bucket key (`None` when reading it throws) and
      its normalised record. */
  datatype Entry = Entry(key: Option<char>, drug: Drug)

  /** Each drug of the input read for filing. */
  function Prepare(items: seq<Json>): (es: seq<Entry>)
    ensures |es| == |items|
    ensures forall i :: 0 <= i < |items| ==> es[i] == Entry(KeyOf(items[i]), NormalizeDrug(items[i]))
  {
    seq(|items|, i requires 0 <= i < |items| => Entry(KeyOf(items[i]), NormalizeDrug(items[i])))
  }

  /** The filing loop: each drug is appended to the bucket of its key. The first drug without
      a key throws, which stops the loop with the buckets filled so far. */
  function FileAll(es: seq<Entry>): (r: Loaded)
    decreases |es|
  {
    if es == [] then Loaded(Empty(), true)
    else
      var prev := FileAll(es[..|es| - 1]);
      var last := es[|es| - 1];
      if !prev.ok then prev
      else match last.key
        case None => Loaded(prev.catalog, false)
        case Some(k) => Loaded(AddDrug(prev.catalog, k, last.drug), true)
  }

  /** The flat branch of `processLoadedData`: every drug is normalised and filed under the
      key of its name. A `null` drug or a truthy non-string name throws. */
  function LoadItems(items: seq<Json>): Loaded {
    FileAll(Prepare(items))
  }

  /** Every entry has a key (no drug makes the loop throw). */
  predicate AllKeyed(es: seq<Entry>) {
    forall i :: 0 <= i < |es| ==> es[i].key.Some?
  }

  /** The drugs filed under `k`, in input order: the reference definition of a bucket. */
  function Bucket(es: seq<Entry>, k: char): seq<Drug>
    decreases |es|
  {
    if es == [] then []
    else
      var last := es[|es| - 1];
      Bucket(es[..|es| - 1], k) + (if last.key == Some(k) then [last.drug] else [])
  }

  lemma {:induction false} AllKeyedPrefix(es: seq<Entry>, n: nat)
    requires AllKeyed(es) && n <= |es|
    ensures AllKeyed(es[..n])
  {
    forall i | 0 <= i < n ensures es[..n][i].key.Some? {
      assert es[..n][i] == es[i];
    }
  }

  /** Every load, complete or not, leaves a valid catalogue. */
  lemma {:induction false} FileAllValid(es: seq<Entry>)
    ensures Valid(FileAll(es).catalog)
    decreases |es|
  {
    if es != [] {
      var init := es[..|es| - 1];
      FileAllValid(init);
      var last := es[|es| - 1];
      if FileAll(init).ok && last.key.Some? {
        AddDrugValid(FileAll(init).catalog, last.key.value, last.drug);
      }
    }
  }

  /** The loop finishes exactly when every drug has a key. */
  lemma {:induction false} FileAllOk(es: seq<Entry>)
    ensures FileAll(es).ok <==> AllKeyed(es)
    decreases |es|
  {
    if es != [] {
      var n := |es| - 1;
      var init := es[..n];
      FileAllOk(init);
      if AllKeyed(es) {
        AllKeyedPrefix(es, n);
      } else {
        var i :| 0 <= i < |es| && es[i].key.None?;
        if i < n {
          assert init[i] == es[i];
        }
      }
    }
  }

  /** After a complete loop, the bucket of `k` holds exactly the drugs with key `k`, in input
      order, and there is a bucket for `k` exactly when some drug has that key. */
  lemma {:induction false} FileAllBucket(es: seq<Entry>, k: char)
    requires AllKeyed(es)
    ensures var c := FileAll(es).catalog;
      (k in c.buckets ==> c.buckets[k] == Bucket(es, k)) &&
      (k !in c.buckets <==> Bucket(es, k) == [])
    decreases |es|
  {
    if es != [] {
      var n := |es| - 1;
      AllKeyedPrefix(es, n);
      FileAllBucket(es[..n], k);
      FileAllOk(es[..n]);
    }
  }

  /** The flat load is a partition: it finishes exactly when every drug can be filed, and
      then every key's bucket holds exactly the drugs with that key, normalised and in input
      order, and there is a bucket only for keys that some drug has. */
  lemma {:induction false} LoadItemsPartition(items: seq<Json>)
    ensures LoadItems(items).ok <==> forall i :: 0 <= i < |items| ==> KeyOf(items[i]).Some?
    ensures LoadItems(items).ok ==> forall k ::
      var c, b := LoadItems(items).catalog, Bucket(Prepare(items), k);
      (k in c.buckets ==> c.buckets[k] == b) && (k !in c.buckets <==> b == [])
  {
    var es := Prepare(items);
    FileAllOk(es);
    if AllKeyed(es) {
      forall k {
        FileAllBucket(es, k);
      }
    } else {
      var i :| 0 <= i < |es| && es[i].key.None?;
      assert KeyOf(items[i]).None?;
    }
  }

  /** A drug without a key stops the loop: the buckets are those of the drugs before it. */
  lemma {:induction false} FileAllStops(es: seq<Entry>, i: nat)
    requires i < |es| && es[i].key.None? && AllKeyed(es[..i])
    ensures FileAll(es) == Loaded(FileAll(es[..i]).catalog, false)
    decreases |es|
  {
    FileAllOk(es[..i]);
    if i == |es| - 1 {
      assert es[..|es| - 1] == es[..i];
    } else {
      var init := es[..|es| - 1];
      assert init[..i] == es[..i];
      FileAllStops(init, i);
    }
  }

  /** A drug that cannot be filed stops the load: the buckets are those of the drugs before
      it, and the drugs after it are not read. */
  lemma {:induction false} LoadItemsStops(items: seq<Json>, i: nat)
    requires i < |items| && KeyOf(items[i]).None?
    requires forall j :: 0 <= j < i ==> KeyOf(items[j]).Some?
    ensures LoadItems(items) == Loaded(LoadItems(items[..i]).catalog, false)
  {
    var es := Prepare(items);
    assert Prepare(items[..i]) == es[..i];
    assert AllKeyed(es[..i]) by {
      forall j | 0 <= j < i ensures es[..i][j].key.Some? {
        assert es[..i][j] == es[j];
      }
    }
    FileAllStops(es, i);
  }

  // ---------------------------------------------------------------- sizes

  /** The number of drugs in the buckets listed by `order`. */
  function Size(order: seq<char>, buckets: map<char, seq<Drug>>): nat
    requires forall k :: k in order ==> k in buckets
  {
    if order == [] then 0 else |buckets[order[0]]| + Size(order[1..], buckets)
  }

  lemma {:induction false} SizeAppend(a: seq<char>, b: seq<char>, buckets: map<char, seq<Drug>>)
    requires forall k :: k in a + b ==> k in buckets
    ensures Size(a + b, buckets) == Size(a, buckets) + Size(b, buckets)
  {
    if a == [] {
      assert a + b == b;
    } else {
      assert (a + b)[1..] == a[1..] + b;
      SizeAppend(a[1..], b, buckets);
    }
  }

  /** Changing a bucket that `order` does not list does not change its size. */
  lemma {:induction false} SizeOther(order: seq<char>, buckets: map<char, seq<Drug>>, k: char, v: seq<Drug>)
    requires forall x :: x in order ==> x in buckets
    requires k !in order
    ensures Size(order, buckets[k := v]) == Size(order, buckets)
  {
    if order != [] {
      SizeOther(order[1..], buckets, k, v);
    }
  }

  /** Changing the bucket of a key listed once changes the size by the difference. */
  lemma {:induction false} SizeUpdate(order: seq<char>, buckets: map<char, seq<Drug>>, k: char, v: seq<Drug>)
    requires forall x :: x in order ==> x in buckets
    requires Distinct(order) && k in order
    ensures Size(order, buckets[k := v]) + |buckets[k]| == Size(order, buckets) + |v|
  {
    if order[0] == k {
      assert k !in order[1..];
      SizeOther(order[1..], buckets, k, v);
    } else {
      SizeUpdate(order[1..], buckets, k, v);
    }
  }

  /** `InsertKey` places the key somewhere in the order: the size grows by its bucket. */
  lemma {:induction false} SizeInsert(order: seq<char>, buckets: map<char, seq<Drug>>, k: char)
    requires forall x :: x in order ==> x in buckets
    requires k in buckets
    ensures Size(InsertKey(order, k), buckets) == Size(order, buckets) + |buckets[k]|
  {
    if !Text.IsDigit(k) {
      SizeAppend(order, [k], buckets);
    } else if order != [] && Text.IsDigit(order[0]) && order[0] < k {
      SizeInsert(order[1..], buckets, k);
      assert InsertKey(order, k)[1..] == InsertKey(order[1..], k);
    } else {
      assert InsertKey(order, k)[1..] == order;
    }
  }

  /** The number of drugs in a catalogue. */
  function Total(c: Catalog): nat
    requires Valid(c)
  {
    Size(c.order, c.buckets)
  }

  /** Filing a drug adds one drug. */
  lemma {:induction false} AddDrugTotal(c: Catalog, k: char, d: Drug)
    requires Valid(c)
    ensures Valid(AddDrug(c, k, d))
    ensures Total(AddDrug(c, k, d)) == Total(c) + 1
  {
    AddDrugValid(c, k, d);
    var r := AddDrug(c, k, d);
    if k in c.buckets {
      SizeUpdate(c.order, c.buckets, k, c.buckets[k] + [d]);
    } else {
      SizeOther(c.order, c.buckets, k, [d]);
      SizeInsert(c.order, c.buckets[k := [d]], k);
    }
  }

  /** The sizes of the buckets add up to the number of drugs filed. */
  lemma {:induction false} FileAllTotal(es: seq<Entry>)
    requires AllKeyed(es)
    ensures Valid(FileAll(es).catalog)
    ensures Total(FileAll(es).catalog) == |es|
    decreases |es|
  {
    FileAllValid(es);
    if es != [] {
      var n := |es| - 1;
      AllKeyedPrefix(es, n);
      FileAllTotal(es[..n]);
      FileAllOk(es[..n]);
      AddDrugTotal(FileAll(es[..n]).catalog, es[n].key.value, es[n].drug);
    }
  }

  /** What a bucket holds: drugs of the input with key `k`. */
  lemma {:induction false} BucketMembers(es: seq<Entry>, k: char)
    ensures forall d :: d in Bucket(es, k) ==> exists i :: 0 <= i < |es| && es[i] == Entry(Some(k), d)
    decreases |es|
  {
    if es != [] {
      var n := |es| - 1;
      var init := es[..n];
      BucketMembers(init, k);
      forall d | d in Bucket(es, k) ensures exists i :: 0 <= i < |es| && es[i] == Entry(Some(k), d) {
        if d in Bucket(init, k) {
          var i :| 0 <= i < |init| && init[i] == Entry(Some(k), d);
          assert es[i] == init[i];
        } else {
          assert es[n] == Entry(Some(k), d);
        }
      }
    }
  }

  /** After a complete load no bucket is empty and each bucket holds only normalised drugs of
      the input whose name gives its key. */
  lemma {:induction false} LoadItemsBuckets(items: seq<Json>, k: char)
    requires LoadItems(items).ok && k in LoadItems(items).catalog.buckets
    ensures LoadItems(items).catalog.buckets[k] != []
    ensures forall d :: d in LoadItems(items).catalog.buckets[k] ==>
      exists i :: 0 <= i < |items| && KeyOf(items[i]) == Some(k) && d == NormalizeDrug(items[i])
  {
    var es := Prepare(items);
    FileAllOk(es);
    FileAllBucket(es, k);
    BucketMembers(es, k);
    forall d | d in LoadItems(items).catalog.buckets[k]
      ensures exists i :: 0 <= i < |items| && KeyOf(items[i]) == Some(k) && d == NormalizeDrug(items[i])
    {
      var i :| 0 <= i < |es| && es[i] == Entry(Some(k), d);
    }
  }

  // ---------------------------------------------------------------- editing

  /** `deleteDrug` on the catalogue: only the bucket of `k` changes; a missing bucket makes
      the source throw, which leaves everything as it was. */
  function DeleteDrug(c: Catalog, k: char, index: nat): (r: Catalog)
    ensures Valid(c) ==> Valid(r)
    ensures r.order == c.order && r.buckets.Keys == c.buckets.Keys
    ensures forall k' :: k' in c.buckets && k' != k ==> r.buckets[k'] == c.buckets[k']
    ensures k in c.buckets ==> r.buckets[k] == RemoveAt(c.buckets[k], index)
  {
    if k in c.buckets then Catalog(c.order, c.buckets[k := RemoveAt(c.buckets[k], index)]) else c
  }

  /** `saveDrugFromModal` on the catalogue: only the bucket of `k` changes; a missing bucket
      makes the source throw, which leaves everything as it was. */
  function SaveDrug(c: Catalog, k: char, index: Option<nat>, d: Drug): (r: Catalog)
    ensures Valid(c) ==> Valid(r)
    ensures r.order == c.order && r.buckets.Keys == c.buckets.Keys
    ensures forall k' :: k' in c.buckets && k' != k ==> r.buckets[k'] == c.buckets[k']
    ensures k in c.buckets ==> r.buckets[k] == PlaceAt(c.buckets[k], index, d)
  {
    if k in c.buckets then Catalog(c.order, c.buckets[k := PlaceAt(c.buckets[k], index, d)]) else c
  }

  /** Deleting an existing drug removes one drug; any other delete removes none. */
  lemma {:induction false} DeleteDrugTotal(c: Catalog, k: char, index: nat)
    requires Valid(c)
    ensures Total(DeleteDrug(c, k, index)) ==
      if k in c.buckets && index < |c.buckets[k]| then Total(c) - 1 else Total(c)
  {
    if k in c.buckets {
      SizeUpdate(c.order, c.buckets, k, RemoveAt(c.buckets[k], index));
    }
  }

  /** Saving a new drug adds one drug and saving an edit keeps the count. */
  lemma {:induction false} SaveDrugTotal(c: Catalog, k: char, index: Option<nat>, d: Drug)
    requires Valid(c)
    ensures Total(SaveDrug(c, k, index, d)) ==
      if k in c.buckets && (index.None? || index.value >= |c.buckets[k]|) then Total(c) + 1 else Total(c)
  {
    if k in c.buckets {
      SizeUpdate(c.order, c.buckets, k, PlaceAt(c.buckets[k], index, d));
    }
  }

  // ---------------------------------------------------------------- grouped input

  /** The drugs gathered from the values of an already-grouped object: a value whose `drugs`
      is an array contributes its elements, any other value nothing, and a `null` value
      makes the source throw (`None`). */
  function CollectValues(vs: seq<Json>): (r: Option<seq<Json>>)
    ensures r.None? <==> exists i :: 0 <= i < |vs| && vs[i] == JNull
    decreases |vs|
  {
    if vs == [] then Some([])
    else
      var prev := CollectValues(vs[..|vs| - 1]);
      var v := vs[|vs| - 1];
      if prev.None? || v == JNull then None
      else
        var drugs := Member(v, "drugs");
        Some(prev.value + if drugs.Some? && drugs.value.JArr? then drugs.value.items else [])
  }

  /** A value without a `drugs` array is dropped. */
  lemma {:induction false} CollectDropsOthers(vs: seq<Json>, v: Json)
    requires v != JNull && !(Member(v, "drugs").Some? && Member(v, "drugs").value.JArr?)
    ensures CollectValues(vs + [v]) == CollectValues(vs)
  {
    assert (vs + [v])[..|vs|] == vs;
    if CollectValues(vs).None? {
      var i :| 0 <= i < |vs| && vs[i] == JNull;
      assert (vs + [v])[i] == JNull;
    } else {
      assert CollectValues(vs).value + [] == CollectValues(vs).value;
    }
  }

  /** A value with a `drugs` array adds its drugs after those gathered so far, whatever key
      it was stored under. */
  lemma {:induction false} CollectAppends(vs: seq<Json>, v: Json, drugs: seq<Json>)
    requires CollectValues(vs).Some? && v.JObj? && Member(v, "drugs") == Some(JArr(drugs))
    ensures CollectValues(vs + [v]) == Some(CollectValues(vs).value + drugs)
  {
    assert (vs + [v])[..|vs|] == vs;
  }

  /** `Object.values(json)` as far as the regrouping loop sees it: `null` throws; an object
      gives its field values; a string gives one-character strings, which carry no `drugs`;
      other scalars give nothing. */
  function CollectDrugs(json: Json): (r: Option<seq<Json>>)
    requires !json.JArr?
    ensures json == JNull ==> r == None
    ensures json.JObj? ==> r == CollectValues(FieldValues(json.fields))
    ensures !json.JObj? && json != JNull ==> r == Some([])
  {
    match json
    case JNull => None
    case JObj(fs) => CollectValues(FieldValues(fs))
    case _ => Some([])
  }

  /** `processLoadedData`: an array is filed drug by drug; anything else is first gathered
      from its values and then filed the same way, so the original grouping is discarded.
      When gathering throws, `APP_DATA` is left empty. */
  function LoadJson(json: Json): (r: Loaded)
    ensures json.JArr? ==> r == LoadItems(json.items)
    ensures !json.JArr? && CollectDrugs(json).Some? ==> r == LoadItems(CollectDrugs(json).value)
    ensures !json.JArr? && CollectDrugs(json).None? ==> r == Loaded(Empty(), false)
  {
    if json.JArr? then LoadItems(json.items)
    else match CollectDrugs(json)
      case None => Loaded(Empty(), false)
      case Some(drugs) => LoadItems(drugs)
  }

  /** Every load leaves a valid catalogue. */
  lemma {:induction false} LoadJsonValid(json: Json)
    ensures Valid(LoadJson(json).catalog)
  {
    if json.JArr? {
      FileAllValid(Prepare(json.items));
    } else if CollectDrugs(json).Some? {
      FileAllValid(Prepare(CollectDrugs(json).value));
    }
  }

  /** Re-importing a grouped file files its drugs exactly as the same drugs given as one
      flat array, concatenated in the groups' field order. */
  lemma {:induction false} GroupedLoadIsFlat(groups: seq<(string, seq<Json>)>)
    ensures var json := JObj(seq(|groups|, i requires 0 <= i < |groups| =>
                          (groups[i].0, JObj([("drugs", JArr(groups[i].1))]))));
      LoadJson(json) == LoadJson(JArr(ConcatGroups(groups)))
    decreases |groups|
  {
    var fs := seq(|groups|, i requires 0 <= i < |groups| => (groups[i].0, JObj([("drugs", JArr(groups[i].1))])));
    CollectGroups(groups, FieldValues(fs));
  }

  /** The drug lists of the groups, one after the other. */
  function ConcatGroups(groups: seq<(string, seq<Json>)>): (r: seq<Json>)
    decreases |groups|
  {
    if groups == [] then [] else ConcatGroups(groups[..|groups| - 1]) + groups[|groups| - 1].1
  }

  lemma {:induction false} CollectGroups(groups: seq<(string, seq<Json>)>, vs: seq<Json>)
    requires |vs| == |groups|
    requires forall i :: 0 <= i < |groups| ==> vs[i] == JObj([("drugs", JArr(groups[i].1))])
    ensures CollectValues(vs) == Some(ConcatGroups(groups))
    decreases |groups|
  {
    if groups != [] {
      var n := |groups| - 1;
      CollectGroups(groups[..n], vs[..n]);
      var v := vs[n];
      assert Member(v, "drugs") == Some(JArr(groups[n].1));
    }
  }

  // ---------------------------------------------------------------- export

  /** The exported records of the drugs of one bucket, in index order. */
  function ExportBucket(drugs: seq<Drug>): (r: seq<Json>)
    ensures |r| == |drugs| && forall i :: 0 <= i < |drugs| ==> r[i] == ExportDrug(drugs[i])
  {
    seq(|drugs|, i requires 0 <= i < |drugs| => ExportDrug(drugs[i]))
  }

  /** The flat list `downloadJSON` writes: bucket by bucket in enumeration order, each
      bucket in index order. */
  function ExportOrder(order: seq<char>, buckets: map<char, seq<Drug>>): seq<Json>
    requires forall k :: k in order ==> k in buckets
  {
    if order == [] then [] else ExportBucket(buckets[order[0]]) + ExportOrder(order[1..], buckets)
  }

  function ExportCatalog(c: Catalog): seq<Json>
    requires Valid(c)
  {
    ExportOrder(c.order, c.buckets)
  }

  /** Export writes one record per drug. */
  lemma {:induction false} ExportOrderCount(order: seq<char>, buckets: map<char, seq<Drug>>)
    requires forall k :: k in order ==> k in buckets
    ensures |ExportOrder(order, buckets)| == Size(order, buckets)
  {
    if order != [] {
      ExportOrderCount(order[1..], buckets);
    }
  }

  /** Export bucket by bucket: one more key adds its bucket's records at the end. */
  lemma {:induction false} ExportOrderSnoc(order: seq<char>, k: char, buckets: map<char, seq<Drug>>)
    requires forall x :: x in order + [k] ==> x in buckets
    ensures ExportOrder(order + [k], buckets) == ExportOrder(order, buckets) + ExportBucket(buckets[k])
  {
    if order == [] {
      assert [] + [k] == [k];
      assert ExportOrder([k], buckets) == ExportBucket(buckets[k]) + ExportOrder([], buckets);
    } else {
      assert (order + [k])[0] == order[0];
      assert (order + [k])[1..] == order[1..] + [k];
      ExportOrderSnoc(order[1..], k, buckets);
    }
  }

  /** Every drug of a listed bucket is written by export. */
  lemma {:induction false} ExportOrderHas(order: seq<char>, buckets: map<char, seq<Drug>>, k: char, i: nat)
    requires forall x :: x in order ==> x in buckets
    requires k in order && i < |buckets[k]|
    ensures ExportDrug(buckets[k][i]) in ExportOrder(order, buckets)
  {
    if order[0] == k {
      assert ExportBucket(buckets[k])[i] == ExportDrug(buckets[k][i]);
    } else {
      ExportOrderHas(order[1..], buckets, k, i);
    }
  }

  /** A drug saved into an existing bucket is written by the next export. */
  lemma {:induction false} SaveDrugExported(c: Catalog, k: char, index: Option<nat>, d: Drug)
    requires Valid(c) && k in c.buckets
    ensures Valid(SaveDrug(c, k, index, d))
    ensures ExportDrug(d) in ExportCatalog(SaveDrug(c, k, index, d))
  {
    var r := SaveDrug(c, k, index, d);
    var b := r.buckets[k];
    var i := if index.Some? && index.value < |c.buckets[k]| then index.value else |b| - 1;
    assert b[i] == d;
    ExportOrderHas(r.order, r.buckets, k, i);
  }

  /** After a complete load, export writes exactly as many records as there were drugs:
      the array's elements, or the drugs gathered from a grouped file. */
  lemma {:induction false} LoadExportCount(json: Json)
    requires LoadJson(json).ok
    ensures Valid(LoadJson(json).catalog)
    ensures json.JArr? ==> |ExportCatalog(LoadJson(json).catalog)| == |json.items|
    ensures !json.JArr? ==> CollectDrugs(json).Some?
    ensures !json.JArr? ==> |ExportCatalog(LoadJson(json).catalog)| == |CollectDrugs(json).value|
  {
    LoadJsonValid(json);
    var c := LoadJson(json).catalog;
    ExportOrderCount(c.order, c.buckets);
    var items := if json.JArr? then json.items else CollectDrugs(json).value;
    var es := Prepare(items);
    FileAllOk(es);
    FileAllTotal(es);
  }
}
