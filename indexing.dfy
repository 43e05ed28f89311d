/** Python-style sequence indexing, as used by integrate_module.py for
    `a[i - 1]`, `v[-1]`, `y[-1]`, `t[-1]` and `s[-1]`. */
module Indexing {

  /** `s[j]` under Python's convention: a negative `j` counts back from the end. */
  function At(s: seq<real>, j: int): real
    requires -|s| <= j < |s|
  {
    if j >= 0 then s[j] else s[|s| + j]
  }
}
