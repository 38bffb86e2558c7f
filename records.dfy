/**
 * Employee records, the form's draft record, and the id-keyed operations the
 * submit and delete handlers apply to the collection.
 */
module Records {
  import JsArray

  /** One stored record; every field is the string the form produced. */
  datatype Employee = Employee(
    id: string,
    name: string,
    gender: string,
    department: string,
    attendance: string,
    profile: string)

  /** The draft the form starts from and is reset to after a successful submit. */
  const EmptyDraft := Employee("", "", "", "", "", "")

  /** The named form inputs a change event can target. */
  datatype Field = Id | Name | Gender | Department | Attendance | Profile

  function Get(e: Employee, f: Field): string
  {
    match f
    case Id => e.id
    case Name => e.name
    case Gender => e.gender
    case Department => e.department
    case Attendance => e.attendance
    case Profile => e.profile
  }

  /** `{ ...e, [f]: v }`: the record with one field overwritten. */
  function WithField(e: Employee, f: Field, v: string): (r: Employee)
    ensures Get(r, f) == v
    ensures forall g :: g != f ==> Get(r, g) == Get(e, g)
  {
    match f
    case Id => e.(id := v)
    case Name => e.(name := v)
    case Gender => e.(gender := v)
    case Department => e.(department := v)
    case Attendance => e.(attendance := v)
    case Profile => e.(profile := v)
  }

  function IdIs(id: string): Employee -> bool
  {
    (e: Employee) => e.id == id
  }

  function IdIsNot(id: string): Employee -> bool
  {
    (e: Employee) => e.id != id
  }

  function ReplaceWhenIdIs(id: string, d: Employee): Employee -> Employee
  {
    (e: Employee) => if e.id == id then d else e
  }

  /** `es.some(emp => emp.id === id)`: the create-mode duplicate test. */
  function HasId(es: seq<Employee>, id: string): bool
  {
    JsArray.Any(es, IdIs(id))
  }

  /** `es.map(emp => emp.id === id ? d : emp)`: the edit-mode update. */
  function ReplaceById(es: seq<Employee>, id: string, d: Employee): seq<Employee>
  {
    JsArray.Map(es, ReplaceWhenIdIs(id, d))
  }

  /** `es.filter(emp => emp.id !== id)`: the confirmed delete. */
  function RemoveById(es: seq<Employee>, id: string): seq<Employee>
  {
    JsArray.Filter(es, IdIsNot(id))
  }

  /** No two records of the collection share an id. */
  predicate UniqueIds(es: seq<Employee>)
  {
    forall i, j :: 0 <= i < j < |es| ==> es[i].id != es[j].id
  }

  /** The duplicate test finds exactly the ids present in the collection. */
  lemma HasIdIff(es: seq<Employee>, id: string)
    ensures HasId(es, id) <==> exists i :: 0 <= i < |es| && es[i].id == id
  {
    JsArray.AnyIff(es, IdIs(id));
  }

  /**
   * The update keeps the length; each record with the edited id is replaced
   * by the draft and every other record stays at its position.
   */
  lemma ReplaceByIdAt(es: seq<Employee>, id: string, d: Employee)
    ensures |ReplaceById(es, id, d)| == |es|
    ensures forall i :: 0 <= i < |es| ==>
                 ReplaceById(es, id, d)[i] == (if es[i].id == id then d else es[i])
  {
    JsArray.MapAt(es, ReplaceWhenIdIs(id, d));
  }

  /**
   * The delete keeps exactly the records whose id differs from the target,
   * each as often as before, in their original order.
   */
  lemma RemoveByIdSpec(es: seq<Employee>, id: string)
    ensures forall e :: e in RemoveById(es, id) <==> e in es && e.id != id
    ensures forall e :: multiset(RemoveById(es, id))[e] == (if e.id != id then multiset(es)[e] else 0)
    ensures JsArray.IsSubsequence(RemoveById(es, id), es)
  {
    JsArray.FilterMembers(es, IdIsNot(id));
    JsArray.FilterCount(es, IdIsNot(id));
    JsArray.FilterIsSubsequence(es, IdIsNot(id));
  }

  /** Deleting keeps every remaining record's id non-empty when all were. */
  lemma RemoveKeepsIdsNonEmpty(es: seq<Employee>, id: string)
    requires forall i :: 0 <= i < |es| ==> es[i].id != ""
    ensures forall i :: 0 <= i < |RemoveById(es, id)| ==> RemoveById(es, id)[i].id != ""
  {
    var r := RemoveById(es, id);
    JsArray.FilterMembers(es, IdIsNot(id));
    forall i | 0 <= i < |r| ensures r[i].id != "" {
      assert r[i] in es;
      var j :| 0 <= j < |es| && es[j] == r[i];
    }
  }

  /** Deleting an id that is absent leaves the collection as it was. */
  lemma RemoveAbsentId(es: seq<Employee>, id: string)
    requires !HasId(es, id)
    ensures RemoveById(es, id) == es
  {
    HasIdIff(es, id);
    JsArray.FilterKeepsAll(es, IdIsNot(id));
  }

  /** Appending a record whose id is not present keeps the ids unique. */
  lemma AppendFreshKeepsUnique(es: seq<Employee>, d: Employee)
    requires UniqueIds(es)
    requires !HasId(es, d.id)
    ensures UniqueIds(es + [d])
  {
    HasIdIff(es, d.id);
  }

  /** Replacing by id with a draft that carries that same id changes no id. */
  lemma ReplaceKeepsUnique(es: seq<Employee>, id: string, d: Employee)
    requires UniqueIds(es)
    requires d.id == id
    ensures UniqueIds(ReplaceById(es, id, d))
  {
    ReplaceByIdAt(es, id, d);
  }

  /** Deleting records never makes two ids equal. */
  lemma {:induction false} RemoveKeepsUnique(es: seq<Employee>, id: string)
    requires UniqueIds(es)
    ensures UniqueIds(RemoveById(es, id))
  {
    if es != [] {
      var rest := es[1..];
      assert UniqueIds(rest) by {
        forall i, j | 0 <= i < j < |rest| ensures rest[i].id != rest[j].id {
          assert rest[i] == es[i + 1] && rest[j] == es[j + 1];
        }
      }
      RemoveKeepsUnique(rest, id);
      var kept := RemoveById(rest, id);
      JsArray.FilterMembers(rest, IdIsNot(id));
      if es[0].id != id {
        var r := RemoveById(es, id);
        assert r == [es[0]] + kept;
        forall i, j | 0 <= i < j < |r| ensures r[i].id != r[j].id {
          if i == 0 {
            assert r[j] == kept[j - 1] && r[j] in rest;
            var k :| 0 <= k < |rest| && rest[k] == r[j];
            assert es[k + 1] == r[j];
          } else {
            assert r[i] == kept[i - 1] && r[j] == kept[j - 1];
          }
        }
      }
    }
  }
}
