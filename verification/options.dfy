/** Optional values: `None` stands for the source's `None` result or for an
    exception the source raises on that input. */
module Options {

  datatype Option<+T> = None | Some(value: T)
}
