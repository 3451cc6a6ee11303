/** Strings as Python holds them: code points, a surrogate among them where one stands by itself. */
module CodePoints {
  type CodePoint = c: int | 0 <= c <= 0x10FFFF

  type Text = seq<CodePoint>

  predicate IsHigh(c: int) {
    0xD800 <= c <= 0xDBFF
  }

  predicate IsLow(c: int) {
    0xDC00 <= c <= 0xDFFF
  }

  /** The surrogates a character above 0xFFFF is two of. */
  function HighOf(c: CodePoint): (u: int)
    requires c >= 0x10000
    ensures IsHigh(u)
  {
    0xD800 + (c - 0x10000) / 1024
  }

  function LowOf(c: CodePoint): (u: int)
    requires c >= 0x10000
    ensures IsLow(u)
  {
    0xDC00 + (c - 0x10000) % 1024
  }

  function Combine(high: int, low: int): CodePoint
    requires IsHigh(high) && IsLow(low)
  {
    0x10000 + (high - 0xD800) * 1024 + (low - 0xDC00)
  }
}
