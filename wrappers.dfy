/** The optional value used for fields a stored record may lack. */
module Wrappers {

  /** `None` stands for an absent field (`undefined` in the extension's records). */
  datatype Option<+T> = None | Some(value: T)
}
