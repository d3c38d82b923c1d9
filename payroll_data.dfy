/** The page's two tables, loaded when the page runs and updated in place by
    its forms: the employee catalogue (`empleados`) and the hours log
    (`registros`). */
module PayrollPage {
  import opened Wrappers
  import opened Roster
  import opened HoursImport

  class PayrollData {
    var employees: seq<Employee>
    var records: seq<HoursRecord>

    /** The tables as read from their files (an absent file reads as an
        empty table). */
    constructor (employees: seq<Employee>, records: seq<HoursRecord>)
      ensures this.employees == employees && this.records == records
    {
      this.employees := employees;
      this.records := records;
    }

    /** The new-employee form on submit: the guard decides, and an accepted
        row goes at the end of the catalogue; the hours log is untouched.
        The form's widgets only produce ids from 1 up and wages from 0 up. */
    method AddEmployee(id: int, name: string, wage: real) returns (r: Result<Employee, AddError>)
      requires id >= 1 && wage >= 0.0
      modifies this
      ensures r == NewEmployee(old(employees), id, name, wage)
      ensures r.Failure? ==> employees == old(employees)
      ensures r.Success? ==> employees == old(employees) + [Employee(id, name, wage)]
      ensures records == old(records)
      ensures UniqueIds(old(employees)) ==> UniqueIds(employees)
      ensures r.Success? ==> HasId(employees, id)
    {
      r := NewEmployee(employees, id, name, wage);
      if r.Success? {
        if UniqueIds(employees) {
          AcceptedEmployeeKeepsIdsUnique(employees, id, name, wage);
        }
        employees := employees + [r.value];
        assert employees[|employees| - 1].id == id;
      }
    }

    /** The protected-Excel import of a sheet: the cleaned records are built
        on every run; only when the "add" button was pressed and cleaning
        succeeded are they appended after the existing log entries. A sheet
        whose cleaning fails leaves both tables as they were. */
    method ImportSheet(rows: seq<SheetRow>, addPressed: bool) returns (r: Result<seq<HoursRecord>, ImportError>)
      modifies this
      ensures r == Normalize(rows)
      ensures records == if addPressed && r.Success? then old(records) + r.value else old(records)
      ensures records[..|old(records)|] == old(records)
      ensures forall id, date :: Occurrences(old(records), id, date) <= Occurrences(records, id, date)
      ensures employees == old(employees)
    {
      r := Normalize(rows);
      if addPressed && r.Success? {
        forall id, date ensures Occurrences(records, id, date) <= Occurrences(records + r.value, id, date) {
          AppendDoesNotMerge(records, r.value, id, date);
        }
        records := records + r.value;
      }
    }
  }
}
