/** Option and Result types shared by every module, and the kinds of Python
    exception that the modelled functions can raise. */
module Wrappers {

  datatype Option<+T> = None | Some(value: T)

  /** The exception classes raised along the modelled code paths. */
  datatype Error =
    | ConfigError            // base64.b64decode rejected a secret
    | StructError            // struct.pack got a value outside the format's range
    | EncodingError          // str.encode('ascii') met a non-ASCII character
    | OverflowError          // int.to_bytes got a value that does not fit
    | ValueError             // int() could not parse, or str.index found nothing
    | TypeError              // an operation got a value of the wrong kind
    | AttributeError         // a method was called on a value that lacks it
    | UnboundLocalError      // a local variable was read before assignment
    | KeyError(key: string)  // a dictionary had no such key
    | UnsupportedAppId(appid: string)  // GameOptions has no member for this appid

  datatype Result<+T> = Ok(value: T) | Err(error: Error)
}
