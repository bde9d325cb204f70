/**
 The two forms of PHP's `substr` that the clean-duplicates command uses,
 with the PHP 8 treatment of offsets and lengths: a negative offset counts
 from the end of the string and is clamped at its start, an offset past the
 end gives the empty string, and a negative length leaves that many
 characters off the end.
 */
module Php {

  function Min(a: int, b: int): int { if a <= b then a else b }

  function Max(a: int, b: int): int { if a <= b then b else a }

  /** Index at which `substr(s, offset, ...)` starts reading. */
  function SubstrStart(s: string, offset: int): (from: nat)
    ensures from <= |s|
    ensures 0 <= offset <= |s| ==> from == offset
    ensures offset < 0 && -offset <= |s| ==> from == |s| + offset
  {
    if offset < 0 then Max(0, |s| + offset) else Min(offset, |s|)
  }

  /** `substr(s, offset)` with the length argument omitted: a suffix of `s`. */
  function Substr(s: string, offset: int): (r: string)
    ensures |r| <= |s| && r == s[|s| - |r|..]
    ensures offset < 0 ==> |r| == Min(-offset, |s|)
    ensures offset >= 0 ==> |r| == Max(0, |s| - offset)
  {
    s[SubstrStart(s, offset)..]
  }

  /** `substr(s, offset, length)`: a contiguous piece of `s`. */
  function SubstrLen(s: string, offset: int, length: int): (r: string)
    ensures |r| <= |s|
    ensures 0 <= offset <= |s| && 0 <= length ==>
              |r| == Min(length, |s| - offset) && r == s[offset..offset + |r|]
    ensures 0 <= offset <= |s| && length < 0 ==>
              |r| == Max(0, |s| - offset + length) && r == s[offset..offset + |r|]
  {
    var from := SubstrStart(s, offset);
    var to := if length < 0 then Max(from, |s| + length) else Min(from + length, |s|);
    s[from..to]
  }
}
