/** A value that may be absent: an object property that is missing, `null` or
    `undefined`, or the first of an empty list of ids, which is `undefined`. */
module Optional {

  datatype Option<+T> = None | Some(value: T)

  /** JavaScript's `x || ""` on a property that holds a string or nothing:
      a missing value becomes the empty string. */
  function OrEmpty(o: Option<string>): string
  {
    match o
    case Some(s) => s
    case None => ""
  }
}
