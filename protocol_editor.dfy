/** The protocol manager's page state: the parsed tree `APP_DATA`, the selected disease
    `CURRENT_DISEASE` and the protocol dialog's context `currentEditContext` (the disease,
    the phase, the edited index and a private copy of the protocol). Each handler is a
    method whose effect on the tree is the matching edit of `ProtocolTree`. */
module ProtocolEditor {
  import opened Wrappers
  import opened Json
  import opened ProtocolTree

  /** The open dialog: where the protocol goes and the copy being edited. `index` is
      `None` for a new protocol. */
  datatype Draft = Draft(disease: string, phase: string, index: Option<nat>, protocol: Json)

  /** A value is falsy for a name when it is absent or empty. */
  predicate Named(name: Option<string>) {
    name.Some? && name.value != ""
  }

  class Editor {
    var tree: Json
    var current: Option<string>
    var draft: Option<Draft>

    /** The page as it starts: the empty tree, no disease selected, no dialog. */
    constructor ()
      ensures tree == JObj([]) && current == None && draft == None
    {
      tree, current, draft := JObj([]), None, None;
    }

    /** `handleFileUpload`: the parsed file becomes the tree as it is; the selection and
        the dialog are not touched. */
    method Load(json: Json)
      modifies this
      ensures tree == json && current == old(current) && draft == old(draft)
    {
      tree := json;
    }

    /** Clicking a disease in the sidebar selects it. */
    method SelectDisease(disease: string)
      modifies this
      ensures current == Some(disease) && tree == old(tree) && draft == old(draft)
    {
      current := Some(disease);
    }

    /** `promptAddDisease`: a cancelled or empty answer does nothing; otherwise the name is
        upper-cased and trimmed, and a new disease is added and selected unless one is
        already there (or the tree is `null`, where the source throws). */
    method AddDisease(raw: Option<string>)
      modifies this
      ensures var e := if Named(raw) then ProtocolTree.AddDisease(old(tree), DiseaseKey(raw.value)) else Unchanged;
        if e.Changed? then tree == e.tree && current == Some(DiseaseKey(raw.value))
        else tree == old(tree) && current == old(current)
      ensures draft == old(draft)
    {
      if !Named(raw) {
        return;
      }
      var key := DiseaseKey(raw.value);
      var e := ProtocolTree.AddDisease(tree, key);
      if e.Changed? {
        tree := e.tree;
        current := Some(key);
      }
    }

    /** `promptAddPhase`: needs a selected disease and a non-empty name; the phase is added
        unless it already exists. */
    method AddPhase(name: Option<string>)
      modifies this
      ensures var e := if Named(current) && Named(name) then ProtocolTree.AddPhase(old(tree), current.value, name.value)
                       else Unchanged;
        tree == if e.Changed? then e.tree else old(tree)
      ensures current == old(current) && draft == old(draft)
    {
      if Named(current) && Named(name) {
        var e := ProtocolTree.AddPhase(tree, current.value, name.value);
        if e.Changed? {
          tree := e.tree;
        }
      }
    }

    /** `editPhaseMeta`: `goal` is the dialog's answer, `None` when cancelled. */
    method EditGoal(disease: string, phase: string, goal: Option<string>)
      modifies this
      ensures var e := ProtocolTree.EditGoal(old(tree), disease, phase, goal);
        tree == if e.Changed? then e.tree else old(tree)
      ensures current == old(current) && draft == old(draft)
    {
      var e := ProtocolTree.EditGoal(tree, disease, phase, goal);
      if e.Changed? {
        tree := e.tree;
      }
    }

    /** `deleteCurrentDisease`: with a disease selected and the deletion confirmed, the
        disease leaves the tree and the selection is cleared. */
    method DeleteCurrentDisease(confirmed: bool)
      modifies this
      ensures var e := if Named(old(current)) && confirmed then DeleteDisease(old(tree), old(current).value) else Unchanged;
        if e.Changed? then tree == e.tree && current == None
        else tree == old(tree) && current == old(current)
      ensures draft == old(draft)
    {
      if Named(current) && confirmed {
        var e := DeleteDisease(tree, current.value);
        if e.Changed? {
          tree := e.tree;
          current := None;
        }
      }
    }

    /** `deletePhase` after the confirmation dialog. */
    method DeletePhase(disease: string, phase: string, confirmed: bool)
      modifies this
      ensures var e := if confirmed then ProtocolTree.DeletePhase(old(tree), disease, phase) else Unchanged;
        tree == if e.Changed? then e.tree else old(tree)
      ensures current == old(current) && draft == old(draft)
    {
      if confirmed {
        var e := ProtocolTree.DeletePhase(tree, disease, phase);
        if e.Changed? {
          tree := e.tree;
        }
      }
    }

    /** `deleteProtocol` after the confirmation dialog. */
    method DeleteProtocol(disease: string, phase: string, index: nat, confirmed: bool)
      modifies this
      ensures var e := if confirmed then ProtocolTree.DeleteProtocol(old(tree), disease, phase, index) else Unchanged;
        tree == if e.Changed? then e.tree else old(tree)
      ensures current == old(current) && draft == old(draft)
    {
      if confirmed {
        var e := ProtocolTree.DeleteProtocol(tree, disease, phase, index);
        if e.Changed? {
          tree := e.tree;
        }
      }
    }

    /** `openProtocolModal`: the dialog opens on a copy of the protocol (a JSON round trip,
        which leaves a parsed value as it is). */
    method OpenProtocolModal(protocol: Json, disease: string, phase: string, index: Option<nat>)
      modifies this
      ensures draft == Some(Draft(disease, phase, index, protocol))
      ensures tree == old(tree) && current == old(current)
    {
      draft := Some(Draft(disease, phase, index, protocol));
    }

    /** `addNewProtocol`: the dialog opens on the blank protocol, to be pushed on save. */
    method AddNewProtocol(disease: string, phase: string)
      modifies this
      ensures draft == Some(Draft(disease, phase, None, NewProtocol()))
      ensures tree == old(tree) && current == old(current)
    {
      OpenProtocolModal(NewProtocol(), disease, phase, None);
    }

    /** `closeModal`: the dialog's context is dropped. */
    method CloseModal()
      modifies this
      ensures draft == None && tree == old(tree) && current == old(current)
    {
      draft := None;
    }

    /** `addDrugRow`: with the dialog open the draft gains a blank drug row; where the
        source throws nothing changes. The tree is never touched. */
    method AddDrugRow()
      modifies this
      ensures old(draft).Some? && ProtocolTree.AddDrugRow(old(draft).value.protocol).Some? ==>
        draft == Some(old(draft).value.(protocol := ProtocolTree.AddDrugRow(old(draft).value.protocol).value))
      ensures !(old(draft).Some? && ProtocolTree.AddDrugRow(old(draft).value.protocol).Some?) ==> draft == old(draft)
      ensures tree == old(tree) && current == old(current)
    {
      if draft.Some? {
        var r := ProtocolTree.AddDrugRow(draft.value.protocol);
        if r.Some? {
          draft := Some(draft.value.(protocol := r.value));
        }
      }
    }

    /** `removeDrug`: the draft's drug row at `index` goes. */
    method RemoveDrug(index: nat)
      modifies this
      ensures old(draft).Some? && ProtocolTree.RemoveDrug(old(draft).value.protocol, index).Some? ==>
        draft == Some(old(draft).value.(protocol := ProtocolTree.RemoveDrug(old(draft).value.protocol, index).value))
      ensures !(old(draft).Some? && ProtocolTree.RemoveDrug(old(draft).value.protocol, index).Some?) ==> draft == old(draft)
      ensures tree == old(tree) && current == old(current)
    {
      if draft.Some? {
        var r := ProtocolTree.RemoveDrug(draft.value.protocol, index);
        if r.Some? {
          draft := Some(draft.value.(protocol := r.value));
        }
      }
    }

    /** `updateDrug`: one field of one drug row of the draft takes the typed value. */
    method UpdateDrug(index: nat, field: string, value: string)
      modifies this
      ensures old(draft).Some? && ProtocolTree.UpdateDrug(old(draft).value.protocol, index, field, value).Some? ==>
        draft == Some(old(draft).value.(protocol := ProtocolTree.UpdateDrug(old(draft).value.protocol, index, field, value).value))
      ensures !(old(draft).Some? && ProtocolTree.UpdateDrug(old(draft).value.protocol, index, field, value).Some?) ==>
        draft == old(draft)
      ensures tree == old(tree) && current == old(current)
    {
      if draft.Some? {
        var r := ProtocolTree.UpdateDrug(draft.value.protocol, index, field, value);
        if r.Some? {
          draft := Some(draft.value.(protocol := r.value));
        }
      }
    }

    /** `saveProtocolFromModal`: the typed fields are written into the draft first; then the
        draft is pushed onto, or assigned into, its phase's list and the dialog closes. When
        finding the list throws, the draft keeps the typed fields and the dialog stays open. */
    method SaveProtocol(name: string, source: string, nurseText: string)
      modifies this
      ensures old(draft).None? || SaveFields(old(draft).value.protocol, name, source, nurseText).None? ==>
        tree == old(tree) && draft == old(draft)
      ensures old(draft).Some? && SaveFields(old(draft).value.protocol, name, source, nurseText).Some? ==>
        var d := old(draft).value;
        var q := SaveFields(d.protocol, name, source, nurseText).value;
        var e := ProtocolTree.SaveProtocol(old(tree), d.disease, d.phase, d.index, q);
        if e.Changed? then tree == e.tree && draft == None
        else tree == old(tree) && draft == Some(d.(protocol := q))
      ensures current == old(current)
    {
      if draft.None? {
        return;
      }
      var d := draft.value;
      var q := SaveFields(d.protocol, name, source, nurseText);
      if q.None? {
        return;
      }
      draft := Some(d.(protocol := q.value));
      var e := ProtocolTree.SaveProtocol(tree, d.disease, d.phase, d.index, q.value);
      if e.Changed? {
        tree := e.tree;
        CloseModal();
      }
    }

    /** `downloadJSON`: a falsy tree is refused ("No data to save"); otherwise the tree
        itself is what gets written out. */
    method Export() returns (r: Option<Json>)
      ensures r.Some? <==> Truthy(tree)
      ensures r.Some? ==> r.value == tree
    {
      if !Truthy(tree) {
        return None;
      }
      r := Some(tree);
    }
  }
}
