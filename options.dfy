/** An optional value: the kind a monster code names, or None for a code
    on which building a monster fails in the source. */
module Options {
  datatype Option<T> = None | Some(value: T)
}
