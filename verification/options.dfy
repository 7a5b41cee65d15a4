/** Nullable slots. The connection keeps every object it owns behind a pointer that
    may be NULL; `None` plays the NULL pointer and `Some(v)` a held reference. */
module Options {

  datatype Option<+T> = None | Some(value: T)
}
