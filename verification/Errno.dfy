/** Error numbers of the kernel, as calls return them negated. */
module Errno {
  const EIO: int := 5
  const ENOMEM: int := 12
  const EINVAL: int := 22
}
