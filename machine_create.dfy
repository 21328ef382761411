/**
 * The machine create route: `year` and `hours` from the request body are
 * checked (year first) before one row is inserted into `machines`.
 */
module MachineCreate {
  import opened Platform

  /** A JavaScript number as `Number(...)` yields it; finite values are taken as reals. */
  datatype JsNumber = NaN | PositiveInfinity | NegativeInfinity | Finite(value: real)

  /**
   * A numeric body field: absent, `null`, the empty string, or any other value
   * together with what `Number(...)` makes of it.
   */
  datatype NumericField = Undefined | Null | EmptyString | Given(number: JsNumber)

  datatype MachineError =
    | YearNotInteger                 // "Årsmodell måste vara ett heltal."
    | YearOutOfRange(maxYear: int)   // "Årsmodell måste vara mellan 1950 och <maxYear>."
    | HoursNegative                  // "Timmar måste vara 0 eller högre."
    | HoursTooHigh                   // "Timmar ser orimligt högt ut (max 200 000)."

  const MinYear: int := 1950
  const MaxHours: real := 200000.0

  /** `Number.isInteger` on a finite number. */
  predicate IsInteger(x: real) {
    x.Floor as real == x
  }

  /** The field is one the route treats as "no value" and stores as null. */
  predicate Blank(f: NumericField) {
    !f.Given?
  }

  /** An accepted model year: a finite integer from 1950 through next year. */
  predicate AcceptableYear(n: JsNumber, nowYear: int) {
    n.Finite? && IsInteger(n.value) && MinYear as real <= n.value <= (nowYear + 1) as real
  }

  /** Accepted operating hours: finite, from 0 through 200000. */
  predicate AcceptableHours(n: JsNumber) {
    n.Finite? && 0.0 <= n.value <= MaxHours
  }

  /** The year check; `nowYear` is the server's current calendar year. */
  function ValidateYear(f: NumericField, nowYear: int): (r: Result<Option<real>, MachineError>)
    ensures r == Ok(None) <==> Blank(f)
    ensures r.Ok? <==> Blank(f) || AcceptableYear(f.number, nowYear)
    ensures r.Ok? && r.value.Some? ==> f == Given(Finite(r.value.value))
    ensures r == Err(YearNotInteger) <==> f.Given? && !(f.number.Finite? && IsInteger(f.number.value))
    ensures r.Err? ==> r.error == YearNotInteger || r.error == YearOutOfRange(nowYear + 1)
  {
    match f
    case Given(n) =>
      if !n.Finite? || !IsInteger(n.value) then Err(YearNotInteger)
      else if n.value < MinYear as real || n.value > (nowYear + 1) as real then Err(YearOutOfRange(nowYear + 1))
      else Ok(Some(n.value))
    case _ => Ok(None)
  }

  /** The hours check; fractional hours are accepted. */
  function ValidateHours(f: NumericField): (r: Result<Option<real>, MachineError>)
    ensures r == Ok(None) <==> Blank(f)
    ensures r.Ok? <==> Blank(f) || AcceptableHours(f.number)
    ensures r.Ok? && r.value.Some? ==> f == Given(Finite(r.value.value))
    ensures r == Err(HoursNegative) <==> f.Given? && !(f.number.Finite? && f.number.value >= 0.0)
    ensures r.Err? ==> r.error == HoursNegative || r.error == HoursTooHigh
  {
    match f
    case Given(n) =>
      if !n.Finite? || n.value < 0.0 then Err(HoursNegative)
      else if n.value > MaxHours then Err(HoursTooHigh)
      else Ok(Some(n.value))
    case _ => Ok(None)
  }

  /** Both checks, year first: a request bad in both fields reports the year. */
  function ValidateMachine(year: NumericField, hours: NumericField, nowYear: int): (r: Result<(Option<real>, Option<real>), MachineError>)
    ensures r.Ok? <==> ValidateYear(year, nowYear).Ok? && ValidateHours(hours).Ok?
    ensures r.Ok? ==> r.value == (ValidateYear(year, nowYear).value, ValidateHours(hours).value)
    ensures ValidateYear(year, nowYear).Err? ==> r == Err(ValidateYear(year, nowYear).error)
    ensures ValidateYear(year, nowYear).Ok? && ValidateHours(hours).Err? ==> r == Err(ValidateHours(hours).error)
  {
    match ValidateYear(year, nowYear)
    case Err(e) => Err(e)
    case Ok(y) =>
      match ValidateHours(hours)
      case Err(e) => Err(e)
      case Ok(h) => Ok((y, h))
  }

  /** The boundaries: 1950, next year, 0 hours and 200000 hours are all accepted; one past them is not. */
  lemma BoundsInclusive(nowYear: int)
    ensures ValidateYear(Given(Finite(1950.0)), nowYear) == (if nowYear + 1 >= 1950 then Ok(Some(1950.0)) else Err(YearOutOfRange(nowYear + 1)))
    ensures nowYear + 1 >= 1950 ==> ValidateYear(Given(Finite((nowYear + 1) as real)), nowYear) == Ok(Some((nowYear + 1) as real))
    ensures ValidateYear(Given(Finite(1949.0)), nowYear) == Err(YearOutOfRange(nowYear + 1))
    ensures ValidateYear(Given(Finite((nowYear + 2) as real)), nowYear) == Err(YearOutOfRange(nowYear + 1))
    ensures ValidateHours(Given(Finite(0.0))) == Ok(Some(0.0))
    ensures ValidateHours(Given(Finite(200000.0))) == Ok(Some(200000.0))
    ensures ValidateHours(Given(Finite(200000.5))) == Err(HoursTooHigh)
  {
    assert IsInteger(1950.0) && IsInteger(1949.0);
    assert IsInteger((nowYear + 1) as real) && IsInteger((nowYear + 2) as real);
  }

  /** The request body of the route. */
  datatype MachineBody = MachineBody(
    name: Option<string>,
    model: Option<string>,
    serialNumber: Option<string>,
    year: NumericField,
    hours: NumericField,
    imageUrl: Option<string>)

  /** One row of `machines` (the id and timestamp the database adds are not modelled). */
  datatype MachineRow = MachineRow(
    name: Option<string>,
    model: Option<string>,
    serialNumber: Option<string>,
    year: Option<real>,
    hours: Option<real>,
    imageUrl: Option<string>)

  datatype CreateResponse =
    | Created(machine: MachineRow)          // 200
    | CreateMissingEnv                      // 500
    | Invalid(error: MachineError)          // 400
    | CreateStorageError(message: string)   // 500

  /** The `machines` table. */
  class Machines {
    var rows: seq<MachineRow>

    constructor ()
      ensures rows == []
    {
      rows := [];
    }

    /**
     * The create route; `nowYear` is the server's current year and
     * `insertError` a failure of the insert.
     */
    method Create(env: Env, body: MachineBody, nowYear: int, insertError: Option<string>) returns (r: CreateResponse)
      modifies this
      ensures !DatabaseConfigured(env) ==> r == CreateMissingEnv && rows == old(rows)
      ensures DatabaseConfigured(env) && ValidateMachine(body.year, body.hours, nowYear).Err? ==>
        r == Invalid(ValidateMachine(body.year, body.hours, nowYear).error) && rows == old(rows)
      ensures DatabaseConfigured(env) && ValidateMachine(body.year, body.hours, nowYear).Ok? && insertError.Some? ==>
        r == CreateStorageError(insertError.value) && rows == old(rows)
      ensures DatabaseConfigured(env) && ValidateMachine(body.year, body.hours, nowYear).Ok? && insertError.None? ==>
        var (year, hours) := ValidateMachine(body.year, body.hours, nowYear).value;
        var row := MachineRow(body.name, body.model, body.serialNumber, year, hours, body.imageUrl);
        r == Created(row) && rows == old(rows) + [row]
    {
      if !DatabaseConfigured(env) {
        return CreateMissingEnv;
      }
      var year: Option<real> := None;
      if body.year.Given? {
        var y := body.year.number;
        if !y.Finite? || !IsInteger(y.value) {
          return Invalid(YearNotInteger);
        }
        if y.value < MinYear as real || y.value > (nowYear + 1) as real {
          return Invalid(YearOutOfRange(nowYear + 1));
        }
        year := Some(y.value);
      }
      var hours: Option<real> := None;
      if body.hours.Given? {
        var h := body.hours.number;
        if !h.Finite? || h.value < 0.0 {
          return Invalid(HoursNegative);
        }
        if h.value > MaxHours {
          return Invalid(HoursTooHigh);
        }
        hours := Some(h.value);
      }
      if insertError.Some? {
        return CreateStorageError(insertError.value);
      }
      var row := MachineRow(body.name, body.model, body.serialNumber, year, hours, body.imageUrl);
      rows := rows + [row];
      r := Created(row);
    }
  }
}
