/** The error numbers the services return, negated, as Zephyr defines them. */
module Errno {

  const EIO: int := 5
  const EAGAIN: int := 11
  const ENOMEM: int := 12
  const EACCES: int := 13
  const ENODEV: int := 19
  const EINVAL: int := 22
  const ENOMSG: int := 35
  const EMSGSIZE: int := 122
  const ENOTSUP: int := 134
}
