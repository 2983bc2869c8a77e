/** An optional value, for what the program writes as None or null. */
module Options {
  datatype Option<+T> = None | Some(value: T) {
    function GetOr(default: T): T {
      if Some? then value else default
    }

    function OrElse(other: Option<T>): Option<T> {
      if Some? then this else other
    }
  }
}
