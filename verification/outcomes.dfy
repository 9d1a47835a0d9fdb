/** Results and errors of the converter: its exceptions become values. */
module Outcomes {

  /** A value that may be missing: `undefined` in the source. */
  datatype Option<+T> = None | Some(value: T)

  /** The exceptions the converter can raise. */
  datatype Error =
    | InvalidIp       // ip2BigInt: text is neither dotted-quad nor colon-hex
    | InvalidFormat   // bigInt2Ip: value not above 0 on the IPv4 path
    | MixedFamilies   // range2Cidr: one endpoint IPv4, the other IPv6
    | NotIterable     // spreading an `undefined` recursive result

  /** A value or the exception raised instead. */
  datatype Result<+T> = Ok(value: T) | Err(error: Error)
}
