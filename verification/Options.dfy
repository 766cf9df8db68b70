module Options {
  datatype Option<+T> = None | Some(value: T)

  /** One element of a set; which one does not matter to the loops over sets. */
  method Pick<T(==)>(s: set<T>) returns (x: T)
    requires s != {}
    ensures x in s
  {
    x :| x in s;
  }
}
