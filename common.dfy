/** Small value types and path helpers shared by the other modules. */
module Common {

  /** Python's `None` or a present value. */
  datatype Option<+T> = None | Some(value: T)

  /** The path separator of the POSIX flavour of `os.path`. */
  const Sep: char := '/'

  /** `os.path.join(a, b)` on POSIX: an absolute `b` replaces `a`; otherwise a
      separator is inserted unless `a` is empty or already ends with one. */
  function PathJoin(a: string, b: string): string {
    if |b| > 0 && b[0] == Sep then b
    else if a == [] || a[|a| - 1] == Sep then a + b
    else a + [Sep] + b
  }
}
