/** The result code shared by the duplicate finder's operations, and an option type. */
module Results {

  /** FindDup_Result_t: FAILED, SUCCESS and the never-returned UNKNOWN_ERROR. */
  datatype Status = Failed | Success | UnknownError

  datatype Option<T> = None | Some(value: T)
}
