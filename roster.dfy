/** The employee catalogue (`empleados`) and the guard of the new-employee
    form: a name that is blank once trimmed, or an id already in the
    catalogue, is refused; otherwise the new row is built. */
module Roster {
  import opened Wrappers

  /** One catalogue row: worker id, full name, hourly wage in MXN. */
  datatype Employee = Employee(id: int, name: string, hourlyWage: real)

  /** Why the form refuses a new employee. */
  datatype AddError = BlankName | DuplicateId

  /** The characters Python's `str.isspace` accepts, which `str.strip()`
      removes from both ends. */
  predicate IsSpace(c: char)
  {
    c == ' ' || '\t' <= c <= '\r' || '\U{1C}' <= c <= '\U{1F}' ||
    c == '\U{85}' || c == '\U{A0}' || c == '\U{1680}' ||
    '\U{2000}' <= c <= '\U{200A}' || c == '\U{2028}' || c == '\U{2029}' ||
    c == '\U{202F}' || c == '\U{205F}' || c == '\U{3000}'
  }

  /** Every character of `s` is white space (vacuously so for ""). */
  predicate AllSpace(s: string)
  {
    forall i :: 0 <= i < |s| ==> IsSpace(s[i])
  }

  /** `s` without its leading white space. */
  function TrimStart(s: string): (t: string)
    ensures |t| <= |s| && t == s[|s| - |t|..]
    ensures forall i :: 0 <= i < |s| - |t| ==> IsSpace(s[i])
    ensures t != [] ==> !IsSpace(t[0])
  {
    if s != [] && IsSpace(s[0]) then
      var t := TrimStart(s[1..]);
      assert s[1..][|s| - 1 - |t|..] == s[|s| - |t|..];
      assert forall i :: 1 <= i < |s| - |t| ==> s[i] == s[1..][i - 1];
      t
    else s
  }

  /** `s` without its trailing white space. */
  function TrimEnd(s: string): (t: string)
    ensures |t| <= |s| && t == s[..|t|]
    ensures forall i :: |t| <= i < |s| ==> IsSpace(s[i])
    ensures t != [] ==> !IsSpace(t[|t| - 1])
  {
    if s != [] && IsSpace(s[|s| - 1]) then
      var t := TrimEnd(s[..|s| - 1]);
      assert s[..|s| - 1][..|t|] == s[..|t|];
      assert forall i :: |t| <= i < |s| - 1 ==> s[i] == s[..|s| - 1][i];
      t
    else s
  }

  /** Python's `str.strip()` with no argument. */
  function Strip(s: string): string
  {
    TrimEnd(TrimStart(s))
  }

  /** A name strips to "" exactly when it is made of white space only. */
  lemma StripEmptyIffAllSpace(s: string)
    ensures Strip(s) == "" <==> AllSpace(s)
  {
  }

  /** The catalogue rows with worker id `id`, in catalogue order
      (`empleados[empleados["id_trabajador"] == id]`). */
  function WithId(roster: seq<Employee>, id: int): (rows: seq<Employee>)
    ensures forall e :: e in rows <==> e in roster && e.id == id
  {
    if roster == [] then []
    else (if roster[0].id == id then [roster[0]] else []) + WithId(roster[1..], id)
  }

  /** Some catalogue row has worker id `id`. */
  predicate HasId(roster: seq<Employee>, id: int)
  {
    exists k :: 0 <= k < |roster| && roster[k].id == id
  }

  /** No two catalogue rows share a worker id. */
  predicate UniqueIds(roster: seq<Employee>)
  {
    forall i, j :: 0 <= i < j < |roster| ==> roster[i].id != roster[j].id
  }

  /** The form's guard: a blank name is refused first, then an id already in
      the catalogue; otherwise the new row is built from the form's fields. */
  function NewEmployee(roster: seq<Employee>, id: int, name: string, wage: real): (r: Result<Employee, AddError>)
    ensures r == Failure(BlankName) <==> AllSpace(name)
    ensures r == Failure(DuplicateId) <==> !AllSpace(name) && HasId(roster, id)
    ensures r.Success? <==> !AllSpace(name) && !HasId(roster, id)
    ensures r.Success? ==> r.value == Employee(id, name, wage)
  {
    StripEmptyIffAllSpace(name);
    if Strip(name) == "" then Failure(BlankName)
    else
      var existe := WithId(roster, id);
      if existe != [] then
        assert existe[0] in roster;
        Failure(DuplicateId)
      else
        assert forall k :: 0 <= k < |roster| && roster[k].id == id ==> roster[k] in existe;
        Success(Employee(id, name, wage))
  }

  /** Appending a row the guard accepts (a name that is not blank, an id not
      yet in the catalogue) keeps worker ids unique, and the new id is then
      found in the catalogue. */
  lemma {:induction false} AcceptedEmployeeKeepsIdsUnique(roster: seq<Employee>, id: int, name: string, wage: real)
    requires UniqueIds(roster) && !HasId(roster, id)
    ensures UniqueIds(roster + [Employee(id, name, wage)])
    ensures HasId(roster + [Employee(id, name, wage)], id)
  {
    var grown := roster + [Employee(id, name, wage)];
    assert grown[|roster|].id == id;
    forall i, j | 0 <= i < j < |grown|
      ensures grown[i].id != grown[j].id
    {
      if j == |roster| {
        assert grown[i] == roster[i];
      }
    }
  }
}
