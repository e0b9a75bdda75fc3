/** Strings. */
module Strings {
  /** `s.slice(0, n)`, and Python's `s[:n]`. */
  function Slice(s: string, n: nat): string {
    if |s| <= n then s else s[..n]
  }
}
