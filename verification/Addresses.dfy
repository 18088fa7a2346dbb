/** Addresses of objects in memory. */
module Addresses {
  type Addr = nat
  const NULL: Addr := 0
}
