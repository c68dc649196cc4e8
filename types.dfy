/** Values shared by the components of multiqr: bytes, the QR encoder's
    answers, and the outcomes of a call (including a Rust panic and a
    loop that never returns). */
module Types {

  /** A Rust `u8`: an input byte, and also the type of the requested version. */
  type u8 = x: int | 0 <= x < 256

  /** The version reported by an encoded QR code: a normal code (1..40 for a
      conforming encoder) or a Micro QR code. */
  datatype Version = Normal(n: int) | Micro(m: int)

  /** The encoder's errors; only `DataTooLong` is told apart by the program. */
  datatype QrError = DataTooLong | OtherQrError

  /** What `QrCode::new` answers for one byte string. */
  datatype EncodeResult = Encoded(version: Version) | Failed(error: QrError)

  /** The encoder itself is not modelled: every operation that encodes takes
      it as a total function from the bytes to encode to the answer. */
  type Encoder = seq<u8> -> EncodeResult

  /** The program's error type `Error`. */
  datatype Error = Qr(qr: QrError) | Other(message: string)

  /** The result of running a Rust function to its end: a normal `Ok`/`Err`
      return, a `panic!` (with the panic message), or a loop that never
      returns. */
  datatype Outcome<T, E> = Ok(value: T) | Err(error: E) | Panic(reason: string) | Diverges

  datatype Option<T> = None | Some(value: T)
}
