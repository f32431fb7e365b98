/** The display helper `truncate` that page templates use to shorten product names. */
module Display {
  import opened PythonSlice

  const Ellipsis: string := "..."

  /** `truncate(text, length)`: `text[:length] + "..."` when the text is longer
      than `length`, otherwise the text unchanged. A negative `length` is a
      Python slice bound, so it drops characters from the end. */
  function Truncate(text: string, length: int): (r: string)
    ensures |text| <= length ==> r == text
    ensures 0 <= length < |text| ==>
      |r| == length + 3 && r[..length] == text[..length] && r[length..] == Ellipsis
    ensures length < 0 && -length <= |text| ==> r == text[..|text| + length] + Ellipsis
    ensures length < 0 && -length > |text| ==> r == Ellipsis
  {
    if |text| > length then Prefix(text, length) + Ellipsis else text
  }

  /** Shortening twice to the same non-negative length changes nothing more. */
  lemma TruncateIdempotent(text: string, length: int)
    requires 0 <= length
    ensures Truncate(Truncate(text, length), length) == Truncate(text, length)
  {
  }
}
