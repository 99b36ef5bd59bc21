/** The error numbers of libuv that the modelled functions return. */
module UvErrors {

  const UV_E2BIG := -7
  const UV_EINVAL := -22
  const UV_ENOSPC := -28
}
