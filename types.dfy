/** Shared vocabulary: the error values the tracker passes around, the
    result wrappers, unsigned 32-bit arithmetic and the outcome of one SQL
    statement. */
module Types {

  /** A Go `uint32`: playtime counters are stored and subtracted at this width. */
  type U32 = x: int | 0 <= x < 0x1_0000_0000

  const U32_MODULUS: int := 0x1_0000_0000

  /** Go's `a - b` on `uint32`: wraps around modulo 2^32. */
  function Sub32(a: U32, b: U32): (r: U32)
    ensures a >= b ==> r == a - b
    ensures a < b ==> r == a - b + U32_MODULUS
  {
    (a - b) % U32_MODULUS
  }

  /** Go's conversion of a non-negative integer to `uint32`: keeps the low 32 bits. */
  function ToU32(n: nat): (r: U32)
    ensures n < U32_MODULUS ==> r == n
  {
    n % U32_MODULUS
  }

  const I64_MIN: int := -0x8000_0000_0000_0000
  const I64_MAX: int := 0x7FFF_FFFF_FFFF_FFFF
  const I64_MODULUS: int := 0x1_0000_0000_0000_0000

  /** Go's signed 64-bit arithmetic (as in `time.Duration`): the result of an
      operation is taken modulo 2^64 into the `int64` range, so a value that
      fits is kept and one that does not differs from it by a multiple of 2^64. */
  function WrapI64(x: int): (r: int)
    ensures I64_MIN <= r <= I64_MAX
    ensures I64_MIN <= x <= I64_MAX ==> r == x
    ensures (x - r) % I64_MODULUS == 0
  {
    (x - I64_MIN) % I64_MODULUS + I64_MIN
  }

  /** The error values of the tracker. The first two are the sentinel errors
      that callers compare against with `==`; `Traced` is what `wrapErr`
      turns any other error into (a stack trace prefixed to the message). */
  datatype Error =
    | Forbidden                          // ErrForbidden
    | EmptyGames                         // ErrEmptyGames
    | EmptySteamIds                      // "steamids cannot be empty"
    | SteamIdLength                      // "steamid should be 17 characters long"
    | EmptyAppIds                        // "appids cannot be empty"
    | ParseInt(text: string)             // strconv.ParseUint failed on text
    | RequestFailed                      // creating, sending or reading the HTTP request failed
    | Status(code: int)                  // a non-200 status other than 403
    | Decode                             // json.Unmarshal failed
    | SummaryCount(got: nat, expected: nat)
    | OpenFailed                         // os.Open failed
    | Database                           // the SQL driver reported an error
    | Traced(inner: Error)               // wrapErr(inner)

  datatype Option<+T> = None | Some(value: T)

  datatype Result<+T> = Ok(value: T) | Err(error: Error)

  /** What executing one SQL statement did: it ran (`Done`), it failed and
      changed nothing (`ExecError`), or it ran but the count of affected rows
      could not be read afterwards (`CountError`). */
  datatype Outcome = Done | ExecError | CountError
}
