/** The absent-or-present value used for every parse attempt and lookup of the model. */
module Optional {

  datatype Option<T> = None | Some(value: T)

  /** A line read from the console: `None` stands for the null that ReadLine returns at end of input. */
  type Line = Option<string>

  /** The `?? ""` idiom of the program: an absent line reads as the empty text. */
  function OrEmpty(line: Line): string
  {
    match line
    case None => ""
    case Some(t) => t
  }
}
