/** Optional values, outcomes and the error numbers of `xh_errno.h`. */
module Results {

  datatype Option<T> = None | Some(value: T)

  datatype Result<T> = Ok(value: T) | Err(error: int)

  const INVAL := 1002
  const NOTFND := 1005
  const FORMAT := 1007
  const ELFINIT := 1008
  const SEGVERR := 1009
}
