/** Claims of a verified token, as far as authorization looks at them. */
module Jwt {
  import opened Wrappers

  datatype SwayRiderClaims =
    | UserClaims(isAdmin: bool, accountLevel: string)
    | ServiceClaims(scopes: seq<string>)
    | OtherClaims

  datatype Claims = Claims(emailVerified: Option<bool>, swayRider: SwayRiderClaims)

  datatype VerifyOpts = VerifyDefault | VerifyOmitClaimsValidation

  /** Verification of a token against one public key; the cryptography is not modelled. */
  type Verifier = (string, string, VerifyOpts) -> Result<Claims, string>
}
