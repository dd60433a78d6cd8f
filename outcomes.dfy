/** Failure values of the bot: the exceptions the Python code lets escape,
    and the Option/Result wrappers the model uses in their place. */
module Outcomes {

  datatype Option<+T> = None | Some(value: T)

  /** What escapes a handler as an exception in the source. */
  datatype Error =
    | TableNotFound              // `select(...)[0]` or `read_html(...)[1]` finds no table
    | HeaderRowsMissing          // `drop(index=[0])`, `iloc[0]` or `drop(index=[1])` on a table that is too short
    | ColumnMissing(name: string)  // `df[name]` or `row[name]` with no such column (KeyError)
    | NotNumeric(name: string)     // `astype(float)` meets a cell that is not a number (ValueError)
    | HrefMissing                  // `fund_link['href']` on a tag without one (KeyError)
    | GroupIdMissing(href: string) // `href.split('txtGROUPID=')[1]` with no marker (IndexError)

  datatype Result<+T> = Ok(value: T) | Err(error: Error) {
    predicate IsFailure() { Err? }

    function PropagateFailure<U>(): Result<U>
      requires Err?
    {
      Err(error)
    }

    function Extract(): T
      requires Ok?
    {
      value
    }
  }
}
