/**
 * The error kinds of the library. The Rust code reports every error as a
 * `String`; the model keeps only which message was produced (and the
 * input it names), not its wording.
 */
module Errors {

  datatype Error =
    | InvalidSpecNumber(input: string)   // src/lib.rs:36-39
    | InvalidDate(input: string)         // src/lib.rs:126, input not YYYY-MM
    | InvalidYear(digits: string)        // src/lib.rs:132, year digits rejected by u32::from_str
    | InvalidMonthDigits(digits: string) // src/lib.rs:138, month digits rejected by u8::from_str
    | InvalidMonth(value: int)           // src/lib.rs:112, month number outside 1..=12
    | HeaderNotFound                     // src/lib.rs:292
    | SecurityCheckFailed(url: string)   // src/lib.rs:190-193
}
