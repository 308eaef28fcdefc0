/** Loaded adapters. */
module Adapters {

  /** The payload stands for everything the cache and the hot-swap manager do not look at. */
  datatype Adapter = Adapter(id: string, size: nat, moe: bool, payload: nat)
}
