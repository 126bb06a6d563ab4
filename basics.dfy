/** Shared vocabulary of the model: optional values, results with an error
    message, and the fixed-width unsigned integers the C++ code works on. */
module Basics {

  /** A value that may be absent; `None` also stands for `std::string::npos`. */
  datatype Option<+T> = None | Some(value: T)

  /** The outcome of an operation that may throw: `Err` carries the message. */
  datatype Result<+T> = Ok(value: T) | Err(msg: string)

  /** `unsigned char`: one byte of a `std::string`. */
  type uint8 = x: int | 0 <= x < 0x100

  /** A 16-bit `wchar_t` code unit (the UTF-16 build). */
  type uint16 = x: int | 0 <= x < 0x1_0000

  /** A 32-bit `wchar_t` code unit (the UTF-32 build). */
  type uint32 = x: int | 0 <= x < 0x1_0000_0000

  /** `uint64_t`. */
  type uint64 = x: int | 0 <= x < 0x1_0000_0000_0000_0000
}
