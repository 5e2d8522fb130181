/** An optional value: `None` stands for "nothing yet", as `float('inf')` does
    for the running minimum of the analysis. */
module Options {
  datatype Option<T> = None | Some(value: T)
}
