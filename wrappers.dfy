/** The two result shapes the tree's operations return: an optional
    reference (`Option`) and a fallible unit result (`Result`). */
module Wrappers {

  datatype Option<+T> = None | Some(value: T)

  datatype Result<+R, +E> = Ok(value: R) | Err(error: E)
}
