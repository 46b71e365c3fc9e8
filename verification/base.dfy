/** Shared vocabulary of the ledger model: bytes, optional values, and the
    results of operations that raise an exception in the original program. */
module Base {

  /** An octet, as Python's `bytes` holds them. */
  newtype byte = x: int | 0 <= x < 256

  datatype Option<+T> = None | Some(value: T)

  /** The exceptions that the ledger code raises or lets propagate. */
  datatype Error =
    | PrevHashNotString     // ValueError from compute_entry_hash
    | KeyNotProvided        // ValueError: no private key and LEDGER_PRIVATE_KEY unset or empty
    | InvalidKeyFormat      // ValueError: the private key hex does not decode to a 32-byte seed
    | EmptyEntryHash        // ValueError from sign_entry
    | NotADict              // AttributeError: `.get` on a parsed line that is not an object
    | MissingKey            // KeyError: `last_entry['entry_hash']` on an object without it
    | NotSubscriptable      // TypeError: `last_entry['entry_hash']` on a string, number, list or true
    | InvalidJson           // JSONDecodeError that nothing catches
    | CannotOpen            // OSError from opening a ledger file

  /** A ledger file as `readlines()` sees it: each line keeps its trailing
      newline, and the last may lack one. `Unreadable` stands for a file that
      exists but cannot be opened or decoded. */
  datatype Content = Unreadable | Lines(lines: seq<string>)

  /** A value, or the exception that was raised instead. */
  datatype Result<+T> = Ok(value: T) | Err(error: Error)
}
