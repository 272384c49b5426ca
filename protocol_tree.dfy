/** The protocol manager's data: a tree disease → phase → `{goal, protocols}` held as the
    parsed JSON itself, where a phase may also be a bare list of protocols (the legacy
    shape). Every handler's effect on the tree is a function here; the page state in
    `ProtocolEditor` is proved against them.

    JavaScript object keys are kept in insertion order: the model assumes disease and phase
    names are not integer-like (such keys would enumerate first). */
module ProtocolTree {
  import opened Wrappers
  import opened Json
  import Text
  import opened Lists

  /** The outcome of one edit: the source throws before writing anything, or leaves the
      tree as it is (an alert, a cancelled dialog), or writes a new tree. */
  datatype Edit = Throws | Unchanged | Changed(tree: Json)

  // ---------------------------------------------------------------- reading the tree

  /** `tree[disease]` when a property of it can be read: `None` when reading it throws
      (the tree or the disease is `null`, or the disease is undefined). */
  function DiseaseOf(tree: Json, disease: string): (r: Option<Json>)
    ensures r.Some? ==> r.value != JNull && Member(tree, disease) == Some(r.value)
    ensures r.None? ==> tree == JNull || Member(tree, disease) in {None, Some(JNull)}
  {
    if tree == JNull then None
    else match Member(tree, disease)
      case Some(v) => if v == JNull then None else Some(v)
      case None => None
  }

  /** `tree[disease][phase]` when a property of it can be read. */
  function PhaseOf(tree: Json, disease: string, phase: string): (r: Option<Json>)
    ensures r.Some? ==> r.value != JNull && DiseaseOf(tree, disease).Some? &&
                        Member(DiseaseOf(tree, disease).value, phase) == Some(r.value)
    ensures r.None? ==> DiseaseOf(tree, disease).None? ||
                        Member(DiseaseOf(tree, disease).value, phase) in {None, Some(JNull)}
  {
    match DiseaseOf(tree, disease)
    case None => None
    case Some(d) => DiseaseOf(d, phase)
  }

  /** `getProtocolsArray`: a legacy phase is its own protocol list; any other phase holds
      its list under `protocols` (undefined when missing). */
  function ProtocolsOf(phase: Json): (r: Option<Json>)
    ensures phase.JArr? ==> r == Some(phase)
    ensures !phase.JArr? ==> r == Member(phase, "protocols")
  {
    if phase.JArr? then Some(phase) else Member(phase, "protocols")
  }

  /** The protocols the disease view lists for a phase: a legacy list itself, otherwise
      `protocols || []`. */
  function ShownProtocols(phase: Json): (r: Json)
    ensures phase.JArr? ==> r == phase
    ensures !phase.JArr? && Present(Member(phase, "protocols")) ==> r == Member(phase, "protocols").value
    ensures !phase.JArr? && !Present(Member(phase, "protocols")) ==> r == JArr([])
  {
    if phase.JArr? then phase else OrElse(Member(phase, "protocols"), JArr([]))
  }

  /** The goal the disease view shows: `goal || ""`. */
  function ShownGoal(phase: Json): (r: Json)
    ensures Present(Member(phase, "goal")) ==> r == Member(phase, "goal").value
    ensures !Present(Member(phase, "goal")) ==> r == JStr("")
  {
    OrElse(Member(phase, "goal"), JStr(""))
  }

  /** A legacy phase shows its own elements and an empty goal; the list the editor changes
      is that same list. */
  lemma {:induction false} LegacyPhase(protocols: seq<Json>)
    ensures ShownProtocols(JArr(protocols)) == JArr(protocols)
    ensures ShownGoal(JArr(protocols)) == JStr("")
    ensures ProtocolsOf(JArr(protocols)) == Some(JArr(protocols))
  {
  }

  // ---------------------------------------------------------------- writing the tree

  /** The phase `{goal: "", protocols: []}` that `promptAddPhase` creates. */
  function NewPhase(): (r: Json)
    ensures Member(r, "goal") == Some(JStr("")) && Member(r, "protocols") == Some(JArr([]))
  {
    JObj([("goal", JStr("")), ("protocols", JArr([]))])
  }

  /** `tree[disease][phase] = v`, where `tree[disease]` can be read. */
  function SetPhase(tree: Json, disease: string, phase: string, v: Json): Json
    requires DiseaseOf(tree, disease).Some?
  {
    WithMember(tree, disease, WithMember(DiseaseOf(tree, disease).value, phase, v))
  }

  /** Writing a phase changes that phase and nothing else: other phases of the disease and
      other diseases read as before. */
  lemma {:induction false} SetPhaseReads(tree: Json, disease: string, phase: string, v: Json)
    requires tree.JObj? && DiseaseOf(tree, disease).Some? && DiseaseOf(tree, disease).value.JObj?
    ensures DiseaseOf(SetPhase(tree, disease, phase, v), disease).Some?
    ensures PhaseOf(SetPhase(tree, disease, phase, v), disease, phase) == if v == JNull then None else Some(v)
    ensures forall p :: p != phase ==>
      Member(DiseaseOf(SetPhase(tree, disease, phase, v), disease).value, p) == Member(DiseaseOf(tree, disease).value, p)
    ensures forall d :: d != disease ==> Member(SetPhase(tree, disease, phase, v), d) == Member(tree, d)
  {
    var dv := DiseaseOf(tree, disease).value;
    MemberWith(dv, phase, v);
    MemberWith(tree, disease, WithMember(dv, phase, v));
  }

  /** `promptAddDisease` once the name is known: a `null` tree throws, a disease already
      present (truthy) is left alone, anything else gets the empty disease `{}`. The test
      looks at own members only; `DiseaseKeyNotInherited` shows that this is how JavaScript
      reads every key the editor passes. */
  function AddDisease(tree: Json, name: string): (r: Edit)
    ensures r.Throws? <==> tree == JNull
    ensures r.Unchanged? <==> tree != JNull && Present(Member(tree, name))
    ensures r.Changed? && tree.JObj? ==> Member(r.tree, name) == Some(JObj([]))
    ensures r.Changed? && tree.JObj? ==> forall d :: d != name ==> Member(r.tree, d) == Member(tree, d)
  {
    if tree == JNull then Throws
    else if Present(Member(tree, name)) then Unchanged
    else
      MemberWith(tree, name, JObj([]));
      Changed(WithMember(tree, name, JObj([])))
  }

  /** The key a typed disease name is stored under: upper-cased, then trimmed. It is trimmed
      and holds no lower-case ASCII letter. */
  function DiseaseKey(raw: string): (r: string)
    ensures Text.IsTrimmed(r) && |r| <= |raw|
    ensures forall i :: 0 <= i < |r| ==> !('a' <= r[i] <= 'z')
  {
    var u := Text.Upper(raw);
    Text.TrimInfix(u);
    Text.Trim(u)
  }

  /** A disease key is never a property inherited from `Object.prototype` (each of those
      holds a lower-case letter), so `AddDisease`'s own-member test reads `tree[key]` as
      JavaScript does. */
  lemma {:induction false} DiseaseKeyNotInherited(tree: Json, raw: string)
    ensures DiseaseKey(raw) !in InheritedNames
    ensures Present(Member(tree, DiseaseKey(raw))) <==> ReadsTruthy(tree, DiseaseKey(raw))
  {
    forall n | n in InheritedNames ensures DiseaseKey(raw) != n {
      assert 'a' <= n[2] <= 'z' || 'a' <= n[|n| - 1] <= 'z';
    }
  }

  /** The emptiness check comes before trimming: a name of blanks passes it and adds the
      disease `""`. */
  lemma {:induction false} BlankNameAddsEmptyKey()
    ensures DiseaseKey("  ") == ""
    ensures AddDisease(JObj([]), DiseaseKey("  ")) == Changed(JObj([("", JObj([]))]))
  {
    assert Text.Upper("  ") == "  ";
    assert Text.TrimStart(" ") == "";
    assert Text.TrimStart("  ") == "";
  }

  /** `promptAddPhase` once the disease and the name are known: the disease must be
      readable; a name that already reads as truthy (an existing phase, or a name the
      disease object inherits, such as `constructor`) is left alone; otherwise the new
      phase is written under the name as typed. */
  function AddPhase(tree: Json, disease: string, name: string): (r: Edit)
    ensures r.Throws? <==> DiseaseOf(tree, disease).None?
    ensures r.Unchanged? <==> DiseaseOf(tree, disease).Some? && ReadsTruthy(DiseaseOf(tree, disease).value, name)
    ensures r.Changed? ==> r.tree == SetPhase(tree, disease, name, NewPhase())
  {
    match DiseaseOf(tree, disease)
    case None => Throws
    case Some(d) =>
      if ReadsTruthy(d, name) then Unchanged
      else Changed(SetPhase(tree, disease, name, NewPhase()))
  }

  /** A phase named after an inherited property is refused as already existing, unless the
      disease defines that name itself with a falsy value. */
  lemma {:induction false} AddPhaseInherited(tree: Json, disease: string, name: string)
    requires DiseaseOf(tree, disease).Some? && DiseaseOf(tree, disease).value.JObj?
    requires name in InheritedNames && Member(DiseaseOf(tree, disease).value, name).None?
    ensures AddPhase(tree, disease, name) == Unchanged
  {
  }

  /** The concrete case: `constructor` cannot be added as a phase of an empty disease. */
  lemma {:induction false} ConstructorPhaseRefused()
    ensures AddPhase(JObj([("D", JObj([]))]), "D", "constructor") == Unchanged
  {
    assert DiseaseOf(JObj([("D", JObj([]))]), "D") == Some(JObj([]));
  }

  /** A phase added to an object disease of an object tree reads as the new phase, and
      every other phase and disease reads as before. */
  lemma {:induction false} AddPhaseInserts(tree: Json, disease: string, name: string)
    requires tree.JObj? && DiseaseOf(tree, disease).Some? && DiseaseOf(tree, disease).value.JObj?
    requires AddPhase(tree, disease, name).Changed?
    ensures PhaseOf(AddPhase(tree, disease, name).tree, disease, name) == Some(NewPhase())
    ensures forall p :: p != name ==>
      Member(DiseaseOf(AddPhase(tree, disease, name).tree, disease).value, p) == Member(DiseaseOf(tree, disease).value, p)
    ensures forall d :: d != disease ==> Member(AddPhase(tree, disease, name).tree, d) == Member(tree, d)
  {
    SetPhaseReads(tree, disease, name, NewPhase());
  }

  /** `editPhaseMeta`: the phase is read first (so an unreadable phase throws even when
      the dialog is cancelled); a cancelled dialog changes nothing; otherwise `goal` is
      set on the phase. */
  function EditGoal(tree: Json, disease: string, phase: string, goal: Option<string>): (r: Edit)
    ensures r.Throws? <==> PhaseOf(tree, disease, phase).None?
    ensures r.Unchanged? <==> PhaseOf(tree, disease, phase).Some? && goal.None?
    ensures r.Changed? ==> goal.Some?
    ensures r.Changed? ==>
      r.tree == SetPhase(tree, disease, phase, WithMember(PhaseOf(tree, disease, phase).value, "goal", JStr(goal.value)))
  {
    match PhaseOf(tree, disease, phase)
    case None => Throws
    case Some(p) =>
      if goal.None? then Unchanged
      else Changed(SetPhase(tree, disease, phase, WithMember(p, "goal", JStr(goal.value))))
  }

  /** Editing a goal changes only that goal: the phase's other fields, the other phases and
      the other diseases read as before. */
  lemma {:induction false} EditGoalOnlyGoal(tree: Json, disease: string, phase: string, goal: string)
    requires tree.JObj? && DiseaseOf(tree, disease).Some? && DiseaseOf(tree, disease).value.JObj?
    requires PhaseOf(tree, disease, phase).Some? && PhaseOf(tree, disease, phase).value.JObj?
    ensures PhaseOf(EditGoal(tree, disease, phase, Some(goal)).tree, disease, phase).Some?
    ensures var t := EditGoal(tree, disease, phase, Some(goal)).tree;
      var p, p' := PhaseOf(tree, disease, phase).value, PhaseOf(t, disease, phase).value;
      Member(p', "goal") == Some(JStr(goal)) &&
      (forall f :: f != "goal" ==> Member(p', f) == Member(p, f)) &&
      (forall q :: q != phase ==> Member(DiseaseOf(t, disease).value, q) == Member(DiseaseOf(tree, disease).value, q)) &&
      (forall d :: d != disease ==> Member(t, d) == Member(tree, d))
  {
    var p := PhaseOf(tree, disease, phase).value;
    var p' := WithMember(p, "goal", JStr(goal));
    MemberWith(p, "goal", JStr(goal));
    SetPhaseReads(tree, disease, phase, p');
  }

  /** `deleteCurrentDisease` once confirmed: `delete tree[disease]`, which throws only on a
      `null` tree. */
  function DeleteDisease(tree: Json, disease: string): (r: Edit)
    ensures r.Throws? <==> tree == JNull
    ensures r.Changed? ==> Member(r.tree, disease) == None
    ensures r.Changed? ==> forall d :: d != disease ==> Member(r.tree, d) == Member(tree, d)
    ensures !r.Unchanged?
  {
    if tree == JNull then Throws else Changed(WithoutMember(tree, disease))
  }

  /** `deletePhase` once confirmed: `delete tree[disease][phase]`; the disease must be
      readable. Only that phase goes. */
  function DeletePhase(tree: Json, disease: string, phase: string): (r: Edit)
    ensures r.Throws? <==> DiseaseOf(tree, disease).None?
    ensures !r.Unchanged?
    ensures r.Changed? && tree.JObj? && DiseaseOf(tree, disease).value.JObj? ==>
      var d' := DiseaseOf(r.tree, disease);
      d'.Some? && Member(d'.value, phase) == None &&
      (forall p :: p != phase ==> Member(d'.value, p) == Member(DiseaseOf(tree, disease).value, p)) &&
      (forall d :: d != disease ==> Member(r.tree, d) == Member(tree, d))
  {
    match DiseaseOf(tree, disease)
    case None => Throws
    case Some(dv) =>
      var dv' := WithoutMember(dv, phase);
      MemberWith(tree, disease, dv');
      Changed(WithMember(tree, disease, dv'))
  }

  // ---------------------------------------------------------------- protocol lists

  /** Writing a phase's protocol list back where `getProtocolsArray` found it. */
  function WithProtocols(phase: Json, protocols: seq<Json>): Json {
    if phase.JArr? then JArr(protocols) else WithMember(phase, "protocols", JArr(protocols))
  }

  /** The written list is the one read back, and an object phase keeps its other fields. */
  lemma {:induction false} WithProtocolsReads(phase: Json, protocols: seq<Json>)
    requires phase.JArr? || phase.JObj?
    ensures ProtocolsOf(WithProtocols(phase, protocols)) == Some(JArr(protocols))
    ensures phase.JObj? ==> forall f :: f != "protocols" ==> Member(WithProtocols(phase, protocols), f) == Member(phase, f)
  {
    if phase.JObj? {
      MemberWith(phase, "protocols", JArr(protocols));
    }
  }

  /** `protocols[index] = v`: inside the list the element is replaced; past the end the list
      grows to `index + 1`, the gap being holes, which JSON writes as `null`. */
  function Assign(l: seq<Json>, index: nat, v: Json): (r: seq<Json>)
    ensures |r| == if index < |l| then |l| else index + 1
    ensures r[index] == v
    ensures forall j :: 0 <= j < |l| && j != index ==> r[j] == l[j]
    ensures forall j :: |l| <= j < index ==> r[j] == JNull
  {
    if index < |l| then l[index := v]
    else l + seq(index - |l|, _ => JNull) + [v]
  }

  /** Where a saved protocol goes: pushed when new, assigned at its index when edited. */
  function Place(l: seq<Json>, index: Option<nat>, v: Json): (r: seq<Json>)
    ensures index.None? ==> r == l + [v]
    ensures index.Some? ==> r == Assign(l, index.value, v)
  {
    if index.None? then l + [v] else Assign(l, index.value, v)
  }

  /** `deleteProtocol` once confirmed: `splice` on the phase's protocol list. An unreadable
      phase, a missing list or one that is not an array throws. */
  function DeleteProtocol(tree: Json, disease: string, phase: string, index: nat): (r: Edit)
    ensures !r.Unchanged?
    ensures r.Changed? <==> PhaseOf(tree, disease, phase).Some? &&
                            ProtocolsOf(PhaseOf(tree, disease, phase).value).Some? &&
                            ProtocolsOf(PhaseOf(tree, disease, phase).value).value.JArr?
    ensures r.Changed? ==> var p := PhaseOf(tree, disease, phase).value;
      r.tree == SetPhase(tree, disease, phase, WithProtocols(p, RemoveAt(ProtocolsOf(p).value.items, index)))
  {
    match PhaseOf(tree, disease, phase)
    case None => Throws
    case Some(p) =>
      match ProtocolsOf(p)
      case Some(JArr(l)) => Changed(SetPhase(tree, disease, phase, WithProtocols(p, RemoveAt(l, index))))
      case _ => Throws
  }

  /** The list-writing half of `saveProtocolFromModal`: the same reads as a delete, then
      push or assign. */
  function SaveProtocol(tree: Json, disease: string, phase: string, index: Option<nat>, v: Json): (r: Edit)
    ensures !r.Unchanged?
    ensures r.Changed? <==> PhaseOf(tree, disease, phase).Some? &&
                            ProtocolsOf(PhaseOf(tree, disease, phase).value).Some? &&
                            ProtocolsOf(PhaseOf(tree, disease, phase).value).value.JArr?
    ensures r.Changed? ==> var p := PhaseOf(tree, disease, phase).value;
      r.tree == SetPhase(tree, disease, phase, WithProtocols(p, Place(ProtocolsOf(p).value.items, index, v)))
  {
    match PhaseOf(tree, disease, phase)
    case None => Throws
    case Some(p) =>
      match ProtocolsOf(p)
      case Some(JArr(l)) => Changed(SetPhase(tree, disease, phase, WithProtocols(p, Place(l, index, v))))
      case _ => Throws
  }

  /** After a protocol list edit on an object tree and disease, the phase's list reads as
      the edited list and the other phases and diseases read as before; an object phase
      keeps its goal. */
  lemma {:induction false} ProtocolEditReads(tree: Json, disease: string, phase: string, protocols: seq<Json>)
    requires tree.JObj? && DiseaseOf(tree, disease).Some? && DiseaseOf(tree, disease).value.JObj?
    requires PhaseOf(tree, disease, phase).Some?
    requires PhaseOf(tree, disease, phase).value.JArr? || PhaseOf(tree, disease, phase).value.JObj?
    ensures var p := PhaseOf(tree, disease, phase).value;
      var t := SetPhase(tree, disease, phase, WithProtocols(p, protocols));
      PhaseOf(t, disease, phase).Some? &&
      ProtocolsOf(PhaseOf(t, disease, phase).value) == Some(JArr(protocols)) &&
      ShownGoal(PhaseOf(t, disease, phase).value) == ShownGoal(p) &&
      (forall q :: q != phase ==> Member(DiseaseOf(t, disease).value, q) == Member(DiseaseOf(tree, disease).value, q)) &&
      (forall d :: d != disease ==> Member(t, d) == Member(tree, d))
  {
    var p := PhaseOf(tree, disease, phase).value;
    var w := WithProtocols(p, protocols);
    WithProtocolsReads(p, protocols);
    assert w.JArr? || w.JObj?;
    SetPhaseReads(tree, disease, phase, w);
    var t := SetPhase(tree, disease, phase, w);
    assert PhaseOf(t, disease, phase) == Some(w);
    if p.JObj? {
      assert Member(w, "goal") == Member(p, "goal");
    }
  }

  /** Writing a phase twice leaves only the second write. */
  lemma {:induction false} SetPhaseTwice(tree: Json, disease: string, phase: string, v: Json, w: Json)
    requires DiseaseOf(tree, disease).Some? && DiseaseOf(tree, disease).value.JObj?
    ensures DiseaseOf(SetPhase(tree, disease, phase, v), disease).Some?
    ensures SetPhase(SetPhase(tree, disease, phase, v), disease, phase, w) == SetPhase(tree, disease, phase, w)
  {
    var dv := DiseaseOf(tree, disease).value;
    MemberWith(tree, disease, WithMember(dv, phase, v));
    WithMemberTwice(dv, phase, v, w);
    WithMemberTwice(tree, disease, WithMember(dv, phase, v), WithMember(dv, phase, w));
  }

  /** Writing back the phase that is there leaves the tree as it was. */
  lemma {:induction false} SetPhaseSame(tree: Json, disease: string, phase: string)
    requires PhaseOf(tree, disease, phase).Some?
    ensures SetPhase(tree, disease, phase, PhaseOf(tree, disease, phase).value) == tree
  {
    var dv := DiseaseOf(tree, disease).value;
    WithMemberSame(dv, phase);
    WithMemberSame(tree, disease);
  }

  /** Writing a protocol list twice leaves only the second list. */
  lemma {:induction false} WithProtocolsTwice(phase: Json, a: seq<Json>, b: seq<Json>)
    ensures WithProtocols(WithProtocols(phase, a), b) == WithProtocols(phase, b)
  {
    if !phase.JArr? {
      WithMemberTwice(phase, "protocols", JArr(a), JArr(b));
    }
  }

  /** Writing back the list a phase holds leaves the phase as it was. */
  lemma {:induction false} WithProtocolsSame(phase: Json)
    requires ProtocolsOf(phase).Some? && ProtocolsOf(phase).value.JArr?
    ensures WithProtocols(phase, ProtocolsOf(phase).value.items) == phase
  {
    if !phase.JArr? {
      WithMemberSame(phase, "protocols");
    }
  }

  /** A phase replaced by a non-null value reads as that value, and putting the old phase
      back gives back the tree. */
  lemma {:induction false} SetPhaseUndo(tree: Json, disease: string, phase: string, v: Json)
    requires PhaseOf(tree, disease, phase).Some? && v != JNull
    ensures PhaseOf(SetPhase(tree, disease, phase, v), disease, phase) == Some(v)
    ensures SetPhase(SetPhase(tree, disease, phase, v), disease, phase, PhaseOf(tree, disease, phase).value) == tree
  {
    var dv := DiseaseOf(tree, disease).value;
    assert tree.JObj? && dv.JObj?;
    MemberWithAt(dv, phase, v, phase);
    MemberWithAt(tree, disease, WithMember(dv, phase, v), disease);
    SetPhaseTwice(tree, disease, phase, v, PhaseOf(tree, disease, phase).value);
    SetPhaseSame(tree, disease, phase);
  }

  /** Adding a protocol and then deleting the last one of that list gives back the tree
      as it was. */
  lemma {:induction false} SaveNewThenDelete(tree: Json, disease: string, phase: string, v: Json)
    requires SaveProtocol(tree, disease, phase, None, v).Changed?
    ensures var p := PhaseOf(tree, disease, phase).value;
      DeleteProtocol(SaveProtocol(tree, disease, phase, None, v).tree, disease, phase,
                     |ProtocolsOf(p).value.items|) == Changed(tree)
  {
    var p := PhaseOf(tree, disease, phase).value;
    var l := ProtocolsOf(p).value.items;
    var p1 := WithProtocols(p, l + [v]);
    WithProtocolsReads(p, l + [v]);
    assert p1 != JNull;
    SetPhaseUndo(tree, disease, phase, p1);
    assert RemoveAt(l + [v], |l|) == l;
    WithProtocolsTwice(p, l + [v], l);
    WithProtocolsSame(p);
  }

  // ---------------------------------------------------------------- protocol drafts

  /** The protocol `addNewProtocol` starts from. */
  function NewProtocol(): (r: Json)
    ensures Member(r, "protocolName") == Some(JStr("New Protocol"))
    ensures Member(r, "drugs") == Some(JArr([])) && Member(r, "NursesInfo") == Some(JArr([]))
    ensures Member(r, "source") == Some(JStr(""))
  {
    JObj([("protocolName", JStr("New Protocol")), ("drugs", JArr([])), ("NursesInfo", JArr([])), ("source", JStr(""))])
  }

  /** The drug row `addDrugRow` appends: every field empty except `phase`, which is
      `"Chemo"`. */
  function NewDrugRow(): (r: Json)
    ensures Member(r, "phase") == Some(JStr("Chemo"))
    ensures forall f :: f in ["name", "dose", "route", "day", "note"] ==> Member(r, f) == Some(JStr(""))
  {
    JObj([("name", JStr("")), ("dose", JStr("")), ("route", JStr("")), ("phase", JStr("Chemo")),
          ("day", JStr("")), ("note", JStr(""))])
  }

  /** `addDrugRow` on the draft: `drugs || []` gains the new row at the end. A draft whose
      `drugs` is truthy but not an array throws, and so does a `null` or scalar draft; both
      are `None`. An array draft is modelled as a failure too: JavaScript gives it a `drugs`
      property that export then drops. */
  function AddDrugRow(p: Json): (r: Option<Json>)
    ensures r.Some? <==> p.JObj? && OrElse(Member(p, "drugs"), JArr([])).JArr?
    ensures r.Some? ==> Member(r.value, "drugs") == Some(JArr(OrElse(Member(p, "drugs"), JArr([])).items + [NewDrugRow()]))
    ensures r.Some? ==> forall f :: f != "drugs" ==> Member(r.value, f) == Member(p, f)
  {
    if !p.JObj? then None
    else
      var drugs := OrElse(Member(p, "drugs"), JArr([]));
      if !drugs.JArr? then None
      else
        var v := JArr(drugs.items + [NewDrugRow()]);
        MemberWith(p, "drugs", v);
        Some(WithMember(p, "drugs", v))
  }

  /** `removeDrug` on the draft: `splice` on its `drugs` array; a missing or non-array
      `drugs` throws. */
  function RemoveDrug(p: Json, index: nat): (r: Option<Json>)
    ensures r.Some? <==> Member(p, "drugs").Some? && Member(p, "drugs").value.JArr?
    ensures r.Some? ==> Member(r.value, "drugs") == Some(JArr(RemoveAt(Member(p, "drugs").value.items, index)))
    ensures r.Some? ==> forall f :: f != "drugs" ==> Member(r.value, f) == Member(p, f)
  {
    match Member(p, "drugs")
    case Some(JArr(l)) =>
      var v := JArr(RemoveAt(l, index));
      MemberWith(p, "drugs", v);
      Some(WithMember(p, "drugs", v))
    case _ => None
  }

  /** `updateDrug` on the draft: `drugs[index][field] = value`. A missing drug (or a
      missing `drugs` array) throws; a row that is not an object ignores the write. */
  function UpdateDrug(p: Json, index: nat, field: string, value: string): (r: Option<Json>)
    ensures r.Some? <==> Member(p, "drugs").Some? && Member(p, "drugs").value.JArr? &&
                         index < |Member(p, "drugs").value.items| && Member(p, "drugs").value.items[index] != JNull
    ensures r.Some? ==> var l := Member(p, "drugs").value.items;
      var l' := Member(r.value, "drugs");
      l'.Some? && l'.value.JArr? && |l'.value.items| == |l| &&
      (l[index].JObj? ==> Member(l'.value.items[index], field) == Some(JStr(value))) &&
      (l[index].JObj? ==> forall f :: f != field ==> Member(l'.value.items[index], f) == Member(l[index], f)) &&
      (forall j :: 0 <= j < |l| && j != index ==> l'.value.items[j] == l[j])
    ensures r.Some? ==> forall f :: f != "drugs" ==> Member(r.value, f) == Member(p, f)
  {
    match Member(p, "drugs")
    case Some(JArr(l)) =>
      if index >= |l| || l[index] == JNull then None
      else
        var row := WithMember(l[index], field, JStr(value));
        MemberWith(l[index], field, JStr(value));
        var v := JArr(l[index := row]);
        MemberWith(p, "drugs", v);
        Some(WithMember(p, "drugs", v))
    case _ => None
  }

  /** The field-capturing half of `saveProtocolFromModal`: name and source as typed, nurse
      information one entry per trimmed non-blank line. A `null` draft throws. */
  function SaveFields(p: Json, name: string, source: string, nurseText: string): (r: Option<Json>)
    ensures r.None? <==> p == JNull
  {
    if p == JNull then None
    else Some(WithMember(WithMember(WithMember(p, "protocolName", JStr(name)), "source", JStr(source)),
                         "NursesInfo", AreaList(nurseText)))
  }

  /** Three writes of distinct properties on an object read back as written and keep the
      other fields. */
  lemma {:induction false} ThreeWrites(p: Json, k1: string, v1: Json, k2: string, v2: Json, k3: string, v3: Json)
    requires p.JObj? && k1 != k2 && k1 != k3 && k2 != k3
    ensures var q := WithMember(WithMember(WithMember(p, k1, v1), k2, v2), k3, v3);
      Member(q, k1) == Some(v1) && Member(q, k2) == Some(v2) && Member(q, k3) == Some(v3) &&
      (forall f :: f != k1 && f != k2 && f != k3 ==> Member(q, f) == Member(p, f))
  {
    var a := WithMember(p, k1, v1);
    var b := WithMember(a, k2, v2);
    forall f ensures Member(WithMember(b, k3, v3), f) == if f == k3 then Some(v3)
                                                       else if f == k2 then Some(v2)
                                                       else if f == k1 then Some(v1)
                                                       else Member(p, f)
    {
      MemberWithAt(p, k1, v1, f);
      MemberWithAt(a, k2, v2, f);
      MemberWithAt(b, k3, v3, f);
    }
  }

  /** An object draft reads back the typed name and source and the nurse lines, trimmed and
      non-blank; its other fields (the drug rows among them) are kept. */
  lemma {:induction false} SaveFieldsReads(p: Json, name: string, source: string, nurseText: string)
    requires p.JObj?
    ensures var q := SaveFields(p, name, source, nurseText).value;
      Member(q, "protocolName") == Some(JStr(name)) &&
      Member(q, "source") == Some(JStr(source)) &&
      Member(q, "NursesInfo") == Some(AreaList(nurseText)) &&
      (forall f :: f != "protocolName" && f != "source" && f != "NursesInfo" ==> Member(q, f) == Member(p, f))
    ensures forall i :: 0 <= i < |AreaList(nurseText).items| ==>
      AreaList(nurseText).items[i].JStr? && AreaList(nurseText).items[i].s != "" &&
      Text.IsTrimmed(AreaList(nurseText).items[i].s)
  {
    ThreeWrites(p, "protocolName", JStr(name), "source", JStr(source), "NursesInfo", AreaList(nurseText));
  }
}
