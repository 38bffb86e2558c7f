/**
 * The attendance component's state and its event handlers: the draft form,
 * the two-mode submit (create or edit), the delete confirmation, and the
 * search term that drives the table's filtered view.
 */
module AttendanceApp {
  import JsArray
  import opened Wrappers
  import opened Records
  import Search

  /** The banner style a notification is raised with. */
  datatype PopupKind = Success | Update | Delete

  /** A notification: its message and its style. */
  datatype Popup = Popup(message: string, kind: PopupKind)

  /** The delete confirmation dialog: hidden, or asking about one id. */
  datatype DeleteModal = Hidden | Pending(empId: string)

  /** JavaScript `!editingId`: true for `null` and for the empty string. */
  predicate IsFalsy(editingId: Option<string>)
  {
    editingId.None? || editingId.value == ""
  }

  /** Some field other than the profile is empty. */
  predicate MissingField(d: Employee)
  {
    d.id == "" || d.name == "" || d.gender == "" || d.department == "" || d.attendance == ""
  }

  /**
   * The notification a submit of `d` is rejected with, in the order the
   * handler tests: missing fields, then a missing profile image when
   * `editingId` is falsy, then (in create mode only) a duplicate id.
   * `None` when the submit is accepted.
   */
  function SubmitError(d: Employee, editingId: Option<string>, es: seq<Employee>): Option<Popup>
  {
    if MissingField(d) then Some(Popup("Please fill all fields", Delete))
    else if IsFalsy(editingId) && d.profile == "" then Some(Popup("Profile image required", Delete))
    else if editingId.None? && HasId(es, d.id) then Some(Popup("Employee ID already exists", Delete))
    else None
  }

  /**
   * A submit is accepted exactly when all five fields are filled, a profile
   * image is present whenever `editingId` is falsy, and, in create mode, no
   * stored record already has the draft's id.
   */
  lemma SubmitAccepted(d: Employee, editingId: Option<string>, es: seq<Employee>)
    ensures SubmitError(d, editingId, es).None? <==>
      d.id != "" && d.name != "" && d.gender != "" && d.department != "" && d.attendance != "" &&
      (IsFalsy(editingId) ==> d.profile != "") &&
      (editingId.None? ==> forall i :: 0 <= i < |es| ==> es[i].id != d.id)
  {
    HasIdIff(es, d.id);
  }

  /**
   * Once the field test has passed, a draft that carries the edited id makes
   * the truthiness test and the null test agree: a falsy `editingId` that is
   * not `null` would be an empty draft id, which the field test rejects.
   */
  lemma ProfileTestAfterFieldCheck(d: Employee, editingId: Option<string>)
    requires editingId.Some? ==> editingId.value == d.id
    requires !MissingField(d)
    ensures IsFalsy(editingId) <==> editingId.None?
  {
  }

  class App {
    var employees: seq<Employee>
    var draft: Employee
    var editingId: Option<string>
    var searchTerm: string
    var deleteModal: DeleteModal
    /** The most recent notification raised by a handler. */
    ghost var lastPopup: Option<Popup>

    /**
     * Ids are unique and never empty, and in edit mode the draft carries the
     * id being edited (its id input is disabled).
     */
    ghost predicate Valid()
      reads this
    {
      UniqueIds(employees) &&
      (forall i :: 0 <= i < |employees| ==> employees[i].id != "") &&
      (editingId.Some? ==> editingId.value == draft.id && draft.id != "")
    }

    constructor ()
      ensures Valid()
      ensures employees == [] && draft == EmptyDraft && editingId == None
      ensures searchTerm == "" && deleteModal == Hidden && lastPopup == None
    {
      employees := [];
      draft := EmptyDraft;
      editingId := None;
      searchTerm := "";
      deleteModal := Hidden;
      lastPopup := None;
    }

    /** In every valid state the truthiness test and the null test agree. */
    lemma ProfileTestFollowsMode()
      requires Valid()
      ensures IsFalsy(editingId) <==> editingId.None?
    {
    }

    /** `handleChange`: one named input overwrites that draft field. */
    method HandleChange(f: Field, v: string)
      requires Valid()
      requires f == Id ==> editingId.None?
      modifies this`draft
      ensures Valid()
      ensures draft == WithField(old(draft), f, v)
      ensures Get(draft, f) == v && forall g :: g != f ==> Get(draft, g) == Get(old(draft), g)
    {
      draft := WithField(draft, f, v);
    }

    /** The file reader's completion: the encoded image becomes the draft's profile. */
    method FileLoaded(dataUrl: string)
      requires Valid()
      modifies this`draft
      ensures Valid()
      ensures draft == old(draft).(profile := dataUrl)
    {
      draft := WithField(draft, Profile, dataUrl);
    }

    /** `handleSubmit`: validate, then update (edit mode) or append (create mode). */
    method HandleSubmit()
      requires Valid()
      modifies this`employees, this`draft, this`editingId, this`lastPopup
      ensures Valid()
      // a rejected submit raises its notification and changes nothing else
      ensures SubmitError(old(draft), old(editingId), old(employees)).Some? ==>
                employees == old(employees) && draft == old(draft) && editingId == old(editingId) &&
                lastPopup == SubmitError(old(draft), old(editingId), old(employees))
      // an accepted submit resets the draft and leaves edit mode
      ensures SubmitError(old(draft), old(editingId), old(employees)).None? ==>
                draft == EmptyDraft && editingId == None
      // edit mode: records with the edited id are replaced in place
      ensures SubmitError(old(draft), old(editingId), old(employees)).None? && old(editingId).Some? ==>
                employees == ReplaceById(old(employees), old(editingId).value, old(draft)) &&
                |employees| == |old(employees)| &&
                (forall i :: 0 <= i < |employees| ==>
                   employees[i] == (if old(employees)[i].id == old(editingId).value
                                    then old(draft) else old(employees)[i])) &&
                lastPopup == Some(Popup("Employee updated successfully", Update))
      // create mode: the draft is appended after the existing records
      ensures SubmitError(old(draft), old(editingId), old(employees)).None? && old(editingId).None? ==>
                employees == old(employees) + [old(draft)] &&
                lastPopup == Some(Popup("Employee added successfully", Success))
    {
      var d := draft;
      if MissingField(d) {
        lastPopup := Some(Popup("Please fill all fields", Delete));
        return;
      }
      if IsFalsy(editingId) && d.profile == "" {
        lastPopup := Some(Popup("Profile image required", Delete));
        return;
      }
      if editingId.Some? {
        var k := editingId.value;
        ReplaceByIdAt(employees, k, d);
        ReplaceKeepsUnique(employees, k, d);
        employees := ReplaceById(employees, k, d);
        editingId := None;
        lastPopup := Some(Popup("Employee updated successfully", Update));
      } else {
        if HasId(employees, d.id) {
          lastPopup := Some(Popup("Employee ID already exists", Delete));
          return;
        }
        AppendFreshKeepsUnique(employees, d);
        employees := employees + [d];
        lastPopup := Some(Popup("Employee added successfully", Success));
      }
      draft := EmptyDraft;
    }

    /** `editEmployee`: load a stored record into the draft and enter edit mode. */
    method EditEmployee(emp: Employee)
      requires Valid()
      requires emp in employees
      modifies this`draft, this`editingId
      ensures Valid()
      ensures draft == emp && editingId == Some(emp.id)
    {
      draft := emp;
      editingId := Some(emp.id);
    }

    /** `openDeleteModal`: ask about `id`, replacing any pending request. */
    method OpenDeleteModal(id: string)
      requires Valid()
      modifies this`deleteModal
      ensures Valid()
      ensures deleteModal == Pending(id)
    {
      deleteModal := Pending(id);
    }

    /** `confirmDelete`: remove every record with the pending id and hide the dialog. */
    method ConfirmDelete()
      requires Valid()
      requires deleteModal.Pending?
      modifies this`employees, this`deleteModal, this`lastPopup
      ensures Valid()
      ensures employees == RemoveById(old(employees), old(deleteModal).empId)
      ensures forall e :: e in employees <==> e in old(employees) && e.id != old(deleteModal).empId
      ensures JsArray.IsSubsequence(employees, old(employees))
      ensures deleteModal == Hidden
      ensures lastPopup == Some(Popup("Employee deleted successfully", Delete))
    {
      var id := deleteModal.empId;
      var kept := RemoveById(employees, id);
      RemoveByIdSpec(employees, id);
      RemoveKeepsUnique(employees, id);
      RemoveKeepsIdsNonEmpty(employees, id);
      assert UniqueIds(kept);
      assert forall i :: 0 <= i < |kept| ==> kept[i].id != "";
      employees := kept;
      deleteModal := Hidden;
      lastPopup := Some(Popup("Employee deleted successfully", Delete));
    }

    /** `cancelDelete`: hide the dialog and keep the collection. */
    method CancelDelete()
      requires Valid()
      modifies this`deleteModal
      ensures Valid()
      ensures deleteModal == Hidden
    {
      deleteModal := Hidden;
    }

    /** The search box's change handler. */
    method SetSearchTerm(term: string)
      requires Valid()
      modifies this`searchTerm
      ensures Valid()
      ensures searchTerm == term
    {
      searchTerm := term;
    }

    /** `filteredEmployees`: the rows the table shows for the current term. */
    function Filtered(): (r: seq<Employee>)
      reads this
      ensures JsArray.IsSubsequence(r, employees)
      ensures forall e :: e in r <==> e in employees && Search.Matches(e, searchTerm)
      ensures forall e :: multiset(r)[e] == (if Search.Matches(e, searchTerm) then multiset(employees)[e] else 0)
    {
      Search.FilteredSpec(employees, searchTerm);
      Search.FilteredEmployees(employees, searchTerm)
    }
  }

  /** The record of the example session. */
  const Ann := Employee("1", "Ann", "Female", "HR", "Present", "<data>")

  /**
   * A session: add one record, search for "present" (which finds nothing,
   * since attendance is not searched), clear the search, then delete the
   * record after confirming; on a second app, delete the record being
   * edited and then submit the edit.
   */
  method ExampleSession()
  {
    var app := ExampleAdd();
    ExampleSearch(app);
    ExampleDelete(app);
    var other := ExampleAdd();
    ExampleStaleEdit(other);
  }

  /** Fill the form field by field and submit it in create mode. */
  method ExampleAdd() returns (app: App)
    ensures fresh(app) && app.Valid()
    ensures app.employees == [Ann] && app.draft == EmptyDraft && app.editingId == None
  {
    app := new App();
    app.HandleChange(Id, "1");
    app.HandleChange(Name, "Ann");
    app.HandleChange(Gender, "Female");
    app.HandleChange(Department, "HR");
    app.HandleChange(Attendance, "Present");
    app.FileLoaded("<data>");
    assert app.draft == Ann && app.editingId == None && app.employees == [];
    assert !HasId([], "1");
    assert SubmitError(Ann, None, []) == None;
    app.HandleSubmit();
  }

  /** "present" shows no row; the empty term shows the whole collection. */
  method ExampleSearch(app: App)
    requires app.Valid() && app.employees == [Ann]
    modifies app`searchTerm
    ensures app.searchTerm == ""
    ensures Search.FilteredEmployees([Ann], "present") == []
    ensures Search.FilteredEmployees([Ann], "") == [Ann]
  {
    app.SetSearchTerm("present");
    Search.PresentFindsNoAttendance();
    var shown := app.Filtered();
    assert shown == [];

    app.SetSearchTerm("");
    Search.EmptyTermKeepsAll(app.employees);
    shown := app.Filtered();
    assert shown == [Ann];
  }

  /**
   * Edit a record, delete it through the dialog while still editing, then
   * submit: the update matches no record, so the collection stays empty, yet
   * the update notification is raised and edit mode is left.
   */
  method ExampleStaleEdit(app: App)
    requires app.Valid() && app.employees == [Ann]
    modifies app`employees, app`draft, app`editingId, app`deleteModal, app`lastPopup
    ensures app.employees == [] && app.editingId == None && app.draft == EmptyDraft
    ensures app.lastPopup == Some(Popup("Employee updated successfully", Update))
  {
    app.EditEmployee(Ann);
    app.OpenDeleteModal("1");
    JsArray.FilterKeepsNone([Ann], IdIsNot("1"));
    app.ConfirmDelete();
    app.HandleChange(Name, "Bob");
    assert SubmitError(Ann.(name := "Bob"), Some("1"), []) == None;
    JsArray.MapAt([], ReplaceWhenIdIs("1", Ann.(name := "Bob")));
    app.HandleSubmit();
  }

  /** Ask to delete id "1" and confirm: the collection becomes empty. */
  method ExampleDelete(app: App)
    requires app.Valid() && app.employees == [Ann]
    modifies app`employees, app`deleteModal, app`lastPopup
    ensures app.employees == [] && app.deleteModal == Hidden
  {
    app.OpenDeleteModal("1");
    JsArray.FilterKeepsNone([Ann], IdIsNot("1"));
    app.ConfirmDelete();
  }
}
