/** The failure-or-value wrapper used for the NULL returns of pam.c. */
module Optional {

  /** `None` stands for a NULL pointer result, `Some(v)` for a valid one. */
  datatype Option<+T> = None | Some(value: T)
}
