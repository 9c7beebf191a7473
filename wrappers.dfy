/** Outcome types shared by the model.  `Fail` stands for the NULL that the
    sampler returns when an internal assertion or an allocation fails. */
module Wrappers {

  datatype Option<+T> = None | Some(value: T)

  datatype Result<+T> = Ok(value: T) | Fail
}
