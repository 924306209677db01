// Error numbers: sdk/inc/sys/errno.h.
module Errno {

  const ENOENT := 2
  const ENOMEM := 12
  const ENOTDIR := 20
  const EINVAL := 22
  const ENAMETOOLONG := 31
  const ENOTSUP := 32
}
