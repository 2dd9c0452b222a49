/** Every way a CDC exchange can fail; each one ends the current request. */
module Errors {
  import opened Text

  datatype Error =
    | MissingRequest                // no `CDCRequest` parameter
    | BadBase64                     // the base64 validity assertion failed
    | BadUri                        // a cookie entry is not a valid URI
    | BadJson                       // the JSON text decoded to `false`
    | MissingTimestamp              // also reached when the JSON does not decode to an object
    | Expired                       // timestamp more than 60 s in the past
    | FromFuture                    // timestamp more than 60 s in the future
    | MissingDomain
    | DomainNotString               // the constructor's string parameter got another type
    | UnknownDomain                 // no configuration for the domain
    | DefaultKey                    // the key is still the published example
    | MissingParameter(name: Bytes) // a key-exists assertion failed
    | MissingSignature
    | InvalidSignature
    | WrongDomain                   // a response from a domain other than ours
    | MissingOp
    | MissingReturn
    | MissingEntityID
}
