/** Byte ranges and findings, the vocabulary shared by scanners, the pipeline and the redactor. */
module Findings {

  type byte = x: int | 0 <= x < 256

  /** The half-open byte range `[start, end)`. */
  datatype Range = Range(start: int, end: int)

  datatype Severity = Info | Low | Medium | High | Critical

  /** One match inside a scanned buffer. Offsets are unchecked integers: scanners promise
      `0 <= start < end <= len`, and the code that consumes findings tolerates worse. */
  datatype Finding = Finding(kind: string, severity: Severity, start: int, end: int,
                             confidence: real, scanner: string)
  {
    function Span(): Range { Range(start, end) }
  }

  /** A finding at the given offsets, for examples in which nothing else matters. */
  function At(start: int, end: int): Finding {
    Finding("any", Low, start, end, 1.0, "any")
  }

  datatype Option<+T> = None | Some(value: T)
}
