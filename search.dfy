/**
 * The table's search filter (`filteredEmployees`): name, department and
 * gender are compared after lower-casing both sides; the id is compared
 * verbatim against the term as typed. Attendance and profile are not
 * consulted and the term is not trimmed.
 */
module Search {
  import JsArray
  import opened Text
  import opened Records

  /** The predicate passed to `employees.filter` for the term `term`. */
  predicate Matches(e: Employee, term: string)
  {
    Includes(Lower(e.name), Lower(term)) ||
    Includes(e.id, term) ||
    Includes(Lower(e.department), Lower(term)) ||
    Includes(Lower(e.gender), Lower(term))
  }

  function MatchesTerm(term: string): Employee -> bool
  {
    (e: Employee) => Matches(e, term)
  }

  /** The records shown in the table for the search box's current term. */
  function FilteredEmployees(es: seq<Employee>, term: string): seq<Employee>
  {
    JsArray.Filter(es, MatchesTerm(term))
  }

  /** The record with its attendance overwritten. */
  function SetAttendance(a: string): Employee -> Employee
  {
    (e: Employee) => e.(attendance := a)
  }

  /**
   * The filtered view is an order-preserving selection of the collection
   * holding exactly the matching records, each as often as in the collection.
   */
  lemma FilteredSpec(es: seq<Employee>, term: string)
    ensures JsArray.IsSubsequence(FilteredEmployees(es, term), es)
    ensures forall e :: e in FilteredEmployees(es, term) <==> e in es && Matches(e, term)
    ensures forall e :: multiset(FilteredEmployees(es, term))[e] ==
                        (if Matches(e, term) then multiset(es)[e] else 0)
  {
    JsArray.FilterIsSubsequence(es, MatchesTerm(term));
    JsArray.FilterMembers(es, MatchesTerm(term));
    JsArray.FilterCount(es, MatchesTerm(term));
  }

  /** An empty search box shows the whole collection in its own order. */
  lemma EmptyTermKeepsAll(es: seq<Employee>)
    ensures FilteredEmployees(es, "") == es
  {
    forall i | 0 <= i < |es| ensures Matches(es[i], "") {
      IncludesEmpty(es[i].id);
    }
    JsArray.FilterKeepsAll(es, MatchesTerm(""));
  }

  /**
   * Attendance never affects the result: overwriting every record's
   * attendance and then filtering selects the same records as filtering first.
   */
  lemma AttendanceIsNotSearched(es: seq<Employee>, term: string, a: string)
    ensures FilteredEmployees(JsArray.Map(es, SetAttendance(a)), term) ==
            JsArray.Map(FilteredEmployees(es, term), SetAttendance(a))
  {
    JsArray.FilterMapCommute(es, SetAttendance(a), MatchesTerm(term));
  }

  /** Name, department and gender are matched without regard to case. */
  lemma CaseInsensitiveFields(e: Employee, e': Employee, term: string)
    requires e'.id == e.id
    requires Lower(e'.name) == Lower(e.name)
    requires Lower(e'.department) == Lower(e.department)
    requires Lower(e'.gender) == Lower(e.gender)
    ensures Matches(e', term) == Matches(e, term)
  {
  }

  /**
   * On the term's side too: terms that agree after lower-casing get the same
   * answer from the name, department and gender tests.
   */
  lemma CaseInsensitiveTerm(e: Employee, term: string, term': string)
    requires Lower(term') == Lower(term)
    ensures Includes(Lower(e.name), Lower(term')) == Includes(Lower(e.name), Lower(term))
    ensures Includes(Lower(e.department), Lower(term')) == Includes(Lower(e.department), Lower(term))
    ensures Includes(Lower(e.gender), Lower(term')) == Includes(Lower(e.gender), Lower(term))
  {
  }

  /** A term that is longer than every searched field of a record cannot match it. */
  lemma {:induction false} TooLongTermMisses(e: Employee, term: string)
    requires |term| > |e.name| && |term| > |e.id|
    requires |term| > |e.department| && |term| > |e.gender|
    ensures !Matches(e, term)
  {
    if Includes(Lower(e.name), Lower(term)) { IncludesLength(Lower(e.name), Lower(term)); }
    if Includes(e.id, term) { IncludesLength(e.id, term); }
    if Includes(Lower(e.department), Lower(term)) { IncludesLength(Lower(e.department), Lower(term)); }
    if Includes(Lower(e.gender), Lower(term)) { IncludesLength(Lower(e.gender), Lower(term)); }
  }

  /** The two-letter term "hr" finds every record of the "HR" department. */
  lemma HrFindsHrDepartment(es: seq<Employee>)
    ensures forall e :: e in es && e.department == "HR" ==> e in FilteredEmployees(es, "hr")
  {
    FilteredSpec(es, "hr");
    assert Lower("HR") == "hr";
    assert Lower("hr") == "hr";
  }

  /**
   * The ids are compared verbatim: with the term "e1", a record whose id is
   * "E1" and whose other searched fields are short is not shown.
   */
  lemma IdIsCaseSensitive()
    ensures !Matches(Employee("E1", "A", "M", "X", "Present", ""), "e1")
  {
    assert Lower("e1") == "e1";
    assert "E1"[0] != "e1"[0];
    assert "E1"[1..] == "1";
    if Includes("1", "e1") { IncludesLength("1", "e1"); }
    if Includes(Lower("A"), "e1") { IncludesLength(Lower("A"), "e1"); }
    if Includes(Lower("M"), "e1") { IncludesLength(Lower("M"), "e1"); }
    if Includes(Lower("X"), "e1") { IncludesLength(Lower("X"), "e1"); }
  }

  /**
   * The term "present" does not find a record that is only present by its
   * attendance, because attendance is not searched.
   */
  lemma PresentFindsNoAttendance()
    ensures FilteredEmployees([Employee("1", "Ann", "Female", "HR", "Present", "<data>")], "present") == []
  {
    var ann := Employee("1", "Ann", "Female", "HR", "Present", "<data>");
    TooLongTermMisses(ann, "present");
    JsArray.FilterKeepsNone([ann], MatchesTerm("present"));
  }
}
