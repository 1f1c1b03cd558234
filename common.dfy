/** Values shared by the three attendance apps. */
module Common {

  datatype Option<+T> = None | Some(value: T) {
    function GetOr(default: T): T {
      match this
      case Some(v) => v
      case None => default
    }
  }

  /** A time of day, as a number of seconds after midnight ("%H:%M:%S"). */
  type Seconds = t: int | 0 <= t < 86400

  /** Hours, minutes and seconds of a wall-clock time as a number of seconds. */
  function HMS(h: nat, m: nat, s: nat): int {
    h * 3600 + m * 60 + s
  }

  /** A reading of the wall clock, taken by the caller: the date as "%Y-%m-%d" and the time of day. */
  datatype Clock = Clock(date: string, time: Seconds)
}
