// Octets that a context stores: keys, IVs, entropy.
module Secrets {
  import opened Bytes

  // Octets to be stored, with the outcome of the allocation that copying them takes.
  datatype Secret = Secret(value: seq<byte>, copied: bool)

  // A stored secret is replaced unless its copy cannot be allocated; an empty one needs no memory.
  predicate Replaces(s: Secret) {
    s.value == [] || s.copied
  }

  method SecretReplace(stored: seq<byte>, source: Secret) returns (ok: bool, now: seq<byte>)
    ensures ok == Replaces(source)
    ensures now == if ok then source.value else stored
  {
    if |source.value| != 0 && !source.copied {
      return false, stored;
    }
    return true, source.value;
  }
}
