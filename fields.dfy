/** The time fields an alarm pattern talks about, the table of their valid
    ranges, and the snapshot of the clock that the matcher compares against. */
module Fields {

  /** The field enumeration. Its ordinals (0 .. 6) index the rows of RANGES. */
  datatype Field = Second | Minute | Hour | Day | Month | Weekday | Year
  {
    function Ordinal(): (k: nat)
      ensures k < LAST
      ensures FieldAt(k) == this
    {
      match this
      case Second => 0
      case Minute => 1
      case Hour => 2
      case Day => 3
      case Month => 4
      case Weekday => 5
      case Year => 6
    }
  }

  /** Ordinal of the first field `check` looks at. */
  const MINUTE: nat := 1

  /** One past the last field: the value at which `check`'s field loop stops. */
  const LAST: nat := 7

  /** The inclusive (min, max) range of every field, indexed by ordinal. */
  const RANGES: seq<(int, int)> :=
    [ (0, 59)       // Second
    , (0, 59)       // Minute
    , (0, 23)       // Hour
    , (1, 31)       // Day
    , (1, 12)       // Month
    , (1, 7)        // Weekday
    , (1970, 2099)  // Year
    ]

  /** The field with ordinal k. */
  function FieldAt(k: nat): Field
    requires k < LAST
  {
    [Second, Minute, Hour, Day, Month, Weekday, Year][k]
  }

  /** The smallest valid reading of field f; no field reads below 0. */
  function Lo(f: Field): (lo: int)
    ensures 0 <= lo
  {
    RANGES[f.Ordinal()].0
  }

  function Hi(f: Field): int { RANGES[f.Ordinal()].1 }

  function Distance(x: int, y: int): nat { if x <= y then y - x else x - y }

  /** Arduino's `constrain(amt, low, high)`. */
  function Constrain(amt: int, low: int, high: int): (r: int)
    requires low <= high
    ensures low <= r <= high
  {
    if amt < low then low else if amt > high then high else amt
  }

  /** A value clamped into the range of field f. */
  function Clamp(x: int, f: Field): (r: int)
    ensures Lo(f) <= r <= Hi(f)
    ensures Lo(f) <= x <= Hi(f) ==> r == x
  {
    Constrain(x, Lo(f), Hi(f))
  }

  /** Clamping moves an out-of-range value to the nearest value of the range. */
  lemma ClampNearest(x: int, f: Field)
    ensures forall y :: Lo(f) <= y <= Hi(f) ==> Distance(Clamp(x, f), x) <= Distance(y, x)
    ensures x < Lo(f) ==> Clamp(x, f) == Lo(f)
    ensures x > Hi(f) ==> Clamp(x, f) == Hi(f)
  {
  }

  /** The readings of the clock at one instant. */
  datatype Now = Now(minute: int, hour: int, day: int, month: int, weekday: int, year: int)

  /** The clock keeps every reading inside its field's range. */
  predicate InRanges(now: Now)
  {
    Lo(Minute) <= now.minute <= Hi(Minute) &&
    Lo(Hour) <= now.hour <= Hi(Hour) &&
    Lo(Day) <= now.day <= Hi(Day) &&
    Lo(Month) <= now.month <= Hi(Month) &&
    Lo(Weekday) <= now.weekday <= Hi(Weekday) &&
    Lo(Year) <= now.year <= Hi(Year)
  }

  /** The current value of a field; seconds are not read and give -1. */
  function ValueFor(f: Field, now: Now): (v: int)
    ensures f == Second ==> v == -1
    ensures f != Second && InRanges(now) ==> Lo(f) <= v <= Hi(f)
  {
    match f
    case Minute => now.minute
    case Hour => now.hour
    case Day => now.day
    case Month => now.month
    case Weekday => now.weekday
    case Year => now.year
    case Second => -1
  }
}
