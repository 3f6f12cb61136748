/** The white-space classification of Go's unicode package. */
module Unicode {

  /** Go's unicode.IsSpace: in the Latin-1 range the six ASCII white-space
      characters plus NEL (U+0085) and NBSP (U+00A0); above it the remaining
      code points with the Unicode White_Space property. */
  predicate IsSpace(r: int)
    ensures IsSpace(r) ==> 0x09 <= r <= 0x3000
  {
    if 0 <= r <= 0xFF then
      0x09 <= r <= 0x0D || r == 0x20 || r == 0x85 || r == 0xA0
    else
      r == 0x1680 || 0x2000 <= r <= 0x200A || r == 0x2028 || r == 0x2029 ||
      r == 0x202F || r == 0x205F || r == 0x3000
  }
}
