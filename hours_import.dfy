/** The protected-Excel import: each sheet row becomes (worker id, date,
    hours), rows with a missing id or date are dropped, ids are converted to
    integers, and the surviving rows are appended to the hours log
    (`registros`) without merging duplicates. */
module HoursImport {
  import opened Wrappers
  import opened ShiftHours

  /** A calendar date, as the date reader yields it. */
  datatype Date = Date(year: int, month: int, day: int)

  /** The id cell of a sheet row: missing, a number, or a value that the
      integer conversion rejects. */
  datatype IdCell = NoId | NumericId(x: real) | NotANumber

  /** One row of the chosen sheet, restricted to the four chosen columns;
      `date` is the date reader's result, `None` where it could not read one. */
  datatype SheetRow = SheetRow(id: IdCell, date: Option<Date>, entry: Punch, exit: Punch)

  /** A row of the cleaned table once its hours are computed. */
  datatype CleanRow = CleanRow(id: IdCell, date: Option<Date>, hours: real)

  /** One entry of the hours log: worker id, date, hours worked. */
  datatype HoursRecord = HoursRecord(workerId: int, date: Date, hoursWorked: real)

  /** Why an import is refused as a whole. */
  datatype ImportError = IdNotInteger

  /** Hours computed for every row, kept or not. */
  function WithHours(rows: seq<SheetRow>): (r: seq<CleanRow>)
    ensures |r| == |rows|
    ensures forall i :: 0 <= i < |rows| ==>
              r[i] == CleanRow(rows[i].id, rows[i].date, WorkedHours(rows[i].entry, rows[i].exit))
  {
    if rows == [] then []
    else [CleanRow(rows[0].id, rows[0].date, WorkedHours(rows[0].entry, rows[0].exit))] + WithHours(rows[1..])
  }

  /** A cleaned row with both an id and a date. */
  predicate Complete(row: CleanRow)
  {
    !row.id.NoId? && row.date.Some?
  }

  /** The cleaned rows that have an id and a date, in their original order. */
  function DropIncomplete(rows: seq<CleanRow>): (r: seq<CleanRow>)
    ensures |r| <= |rows|
    ensures forall row :: row in r <==> row in rows && Complete(row)
  {
    if rows == [] then []
    else (if Complete(rows[0]) then [rows[0]] else []) + DropIncomplete(rows[1..])
  }

  /** A sheet row with both an id and a date. */
  predicate HasIdAndDate(row: SheetRow)
  {
    !row.id.NoId? && row.date.Some?
  }

  /** Reference filter on the sheet itself: the rows with an id and a date. */
  function SheetRowsWithIdAndDate(rows: seq<SheetRow>): seq<SheetRow>
  {
    if rows == [] then []
    else (if HasIdAndDate(rows[0]) then [rows[0]] else []) + SheetRowsWithIdAndDate(rows[1..])
  }

  /** Integer conversion of a number: truncation toward zero. */
  function TruncateToInt(x: real): (n: int)
    ensures 0.0 <= x ==> n as real <= x < n as real + 1.0
    ensures x < 0.0 ==> n as real - 1.0 < x <= n as real
  {
    if 0.0 <= x then x.Floor else -((-x).Floor)
  }

  /** The log entry of a cleaned row whose id is a number. */
  function ToRecord(row: CleanRow): HoursRecord
    requires Complete(row) && row.id.NumericId?
  {
    HoursRecord(TruncateToInt(row.id.x), row.date.value, row.hours)
  }

  /** Conversion of the id column to integers: refused as a whole when some
      id is not a number, otherwise every row becomes a log entry. */
  function CastIds(rows: seq<CleanRow>): (r: Result<seq<HoursRecord>, ImportError>)
    requires forall i :: 0 <= i < |rows| ==> Complete(rows[i])
    ensures r.Success? <==> forall i :: 0 <= i < |rows| ==> rows[i].id.NumericId?
    ensures r.Failure? ==> r.error == IdNotInteger
    ensures r.Success? ==> |r.value| == |rows|
    ensures r.Success? ==> forall i :: 0 <= i < |rows| ==> r.value[i] == ToRecord(rows[i])
  {
    if rows == [] then Success([])
    else
      assert Complete(rows[0]);
      match rows[0].id
      case NumericId(x) =>
        (match CastIds(rows[1..])
         case Failure(e) => Failure(e)
         case Success(rest) => Success([ToRecord(rows[0])] + rest))
      case _ => Failure(IdNotInteger)
  }

  /** The whole cleaning step: hours first, then the rows without an id or a
      date dropped, then the ids converted. */
  function Normalize(rows: seq<SheetRow>): Result<seq<HoursRecord>, ImportError>
  {
    var cleaned := DropIncomplete(WithHours(rows));
    forall i | 0 <= i < |cleaned| ensures Complete(cleaned[i]) { assert cleaned[i] in cleaned; }
    CastIds(cleaned)
  }

  /** Computing hours before dropping rows gives the same table as dropping
      the sheet rows first: the duration rule never fails. */
  lemma {:induction false} HoursBeforeFilterAgree(rows: seq<SheetRow>)
    ensures DropIncomplete(WithHours(rows)) == WithHours(SheetRowsWithIdAndDate(rows))
  {
    if rows != [] {
      HoursBeforeFilterAgree(rows[1..]);
      assert WithHours(rows)[1..] == WithHours(rows[1..]);
      var head := WithHours([rows[0]]);
      if HasIdAndDate(rows[0]) {
        WithHoursSplits([rows[0]], SheetRowsWithIdAndDate(rows[1..]));
      }
    }
  }

  /** Hours are computed row by row, so a split sheet is computed part by part. */
  lemma WithHoursSplits(a: seq<SheetRow>, b: seq<SheetRow>)
    ensures WithHours(a + b) == WithHours(a) + WithHours(b)
  {
  }

  /** Dropping rows keeps the survivors in order: the rows of a split table
      survive part by part. */
  lemma {:induction false} DropIncompleteSplits(a: seq<CleanRow>, b: seq<CleanRow>)
    ensures DropIncomplete(a + b) == DropIncomplete(a) + DropIncomplete(b)
  {
    if a != [] {
      DropIncompleteSplits(a[1..], b);
      assert (a + b)[0] == a[0] && (a + b)[1..] == a[1..] + b;
    } else {
      assert a + b == b;
    }
  }

  /** Ids are converted row by row: a split table converts part by part, and
      fails when either part fails. */
  lemma {:induction false} CastIdsSplits(a: seq<CleanRow>, b: seq<CleanRow>)
    requires forall i :: 0 <= i < |a| ==> Complete(a[i])
    requires forall i :: 0 <= i < |b| ==> Complete(b[i])
    ensures CastIds(a + b).Success? <==> CastIds(a).Success? && CastIds(b).Success?
    ensures CastIds(a + b).Success? ==> CastIds(a + b).value == CastIds(a).value + CastIds(b).value
  {
    var ab := a + b;
    assert forall i :: 0 <= i < |ab| ==> Complete(ab[i]) by {
      forall i | 0 <= i < |ab| ensures Complete(ab[i]) {
        if i < |a| { assert ab[i] == a[i]; } else { assert ab[i] == b[i - |a|]; }
      }
    }
    if CastIds(ab).Success? {
      assert CastIds(a).Success? && CastIds(b).Success? by {
        forall i | 0 <= i < |a| ensures a[i].id.NumericId? { assert ab[i] == a[i]; }
        forall i | 0 <= i < |b| ensures b[i].id.NumericId? { assert ab[|a| + i] == b[i]; }
      }
      var all, left, right := CastIds(ab).value, CastIds(a).value, CastIds(b).value;
      assert |all| == |left| + |right|;
      forall i | 0 <= i < |all| ensures all[i] == (left + right)[i] {
        if i < |a| { assert ab[i] == a[i]; } else { assert ab[i] == b[i - |a|]; }
      }
    } else {
      var k :| 0 <= k < |ab| && !ab[k].id.NumericId?;
      if k < |a| { assert ab[k] == a[k]; } else { assert ab[k] == b[k - |a|]; }
    }
  }

  /** The import of a sheet is the import of its parts, in order: the records
      of the first part come first, and the sheet is refused when either part
      is. */
  lemma NormalizeSplits(a: seq<SheetRow>, b: seq<SheetRow>)
    ensures Normalize(a + b).Success? <==> Normalize(a).Success? && Normalize(b).Success?
    ensures Normalize(a + b).Success? ==> Normalize(a + b).value == Normalize(a).value + Normalize(b).value
  {
    WithHoursSplits(a, b);
    var ca, cb := DropIncomplete(WithHours(a)), DropIncomplete(WithHours(b));
    DropIncompleteSplits(WithHours(a), WithHours(b));
    forall i | 0 <= i < |ca| ensures Complete(ca[i]) { assert ca[i] in ca; }
    forall i | 0 <= i < |cb| ensures Complete(cb[i]) { assert cb[i] in cb; }
    CastIdsSplits(ca, cb);
  }

  /** What a single sheet row imports: nothing when its id or date is
      missing, a refusal when its id is not a number, else one record with
      the truncated id, the date and the shift's hours. */
  lemma NormalizeOneRow(row: SheetRow)
    ensures !HasIdAndDate(row) ==> Normalize([row]) == Success([])
    ensures HasIdAndDate(row) && row.id.NotANumber? ==> Normalize([row]) == Failure(IdNotInteger)
    ensures HasIdAndDate(row) && row.id.NumericId? ==>
              Normalize([row]) == Success([HoursRecord(TruncateToInt(row.id.x), row.date.value,
                                                       WorkedHours(row.entry, row.exit))])
  {
    assert [row][1..] == [];
    var cleaned := DropIncomplete(WithHours([row]));
    assert WithHours([row]) == [CleanRow(row.id, row.date, WorkedHours(row.entry, row.exit))];
    if HasIdAndDate(row) {
      assert cleaned == WithHours([row]);
      if row.id.NumericId? {
        assert Complete(cleaned[0]) && cleaned[0].id.NumericId?;
        var records := CastIds(cleaned);
        assert records.Success? && |records.value| == 1;
        assert records.value == [ToRecord(cleaned[0])];
      }
    } else {
      assert cleaned == [];
    }
  }

  /** Number of log entries for worker `id` on `date`. */
  function Occurrences(log: seq<HoursRecord>, id: int, date: Date): nat
  {
    if log == [] then 0
    else (if log[0].workerId == id && log[0].date == date then 1 else 0) + Occurrences(log[1..], id, date)
  }

  /** Appending never merges: every (worker, date) pair has as many entries
      after the append as before it plus as many as were appended. */
  lemma {:induction false} AppendDoesNotMerge(log: seq<HoursRecord>, added: seq<HoursRecord>, id: int, date: Date)
    ensures Occurrences(log + added, id, date) == Occurrences(log, id, date) + Occurrences(added, id, date)
  {
    if log != [] {
      AppendDoesNotMerge(log[1..], added, id, date);
      assert (log + added)[0] == log[0] && (log + added)[1..] == log[1..] + added;
    } else {
      assert log + added == added;
    }
  }
}
