/** Values that may be missing, and buffers. */
module Wrappers {
  datatype Option<+T> = None | Some(value: T)

  /** Writes all the places of a buffer. */
  method Store<T>(buffer: array<T>, s: seq<T>)
    requires |s| == buffer.Length
    modifies buffer
    ensures buffer[..] == s
  {
    for i := 0 to |s|
      invariant buffer[..i] == s[..i]
    {
      buffer[i] := s[i];
    }
  }
}
