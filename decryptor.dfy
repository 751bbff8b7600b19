/**
 * app/crypto.js: `decryptSeedBase64`. RSA-OAEP with SHA-256, the private
 * key file and base64 decoding are not modelled: the key is the injected
 * `privateKey` (None when the key file is missing) and decryption is the
 * injected `RsaOaepDecrypt`, which yields the plaintext as text or fails.
 */
module Decryptor {

  import opened Wrappers
  import opened JsText

  /** Base64-decode the payload and decrypt it under the PEM key text. */
  type RsaOaepDecrypt = (string, string) -> Result<string, string>

  /** Why decryption failed; none of these reaches a caller of the service. */
  datatype DecryptError =
    | InvalidInput
    | KeyUnavailable
    | DecryptionFailed(detail: string)

  /**
   * A missing, empty or non-string payload is refused before the key is
   * read; a missing key comes next; otherwise the decrypted text, trimmed.
   */
  function DecryptSeedBase64(payload: JsonValue, privateKey: Option<string>, rsa: RsaOaepDecrypt)
    : (r: Result<string, DecryptError>)
    ensures !(payload.Str? && payload.s != "") ==> r == Failure(InvalidInput)
    ensures payload.Str? && payload.s != "" && privateKey.None? ==> r == Failure(KeyUnavailable)
    ensures payload.Str? && payload.s != "" && privateKey.Some? ==>
              (r.Success? <==> rsa(privateKey.value, payload.s).Success?)
    ensures r.Success? ==> r.value == Trim(rsa(privateKey.value, payload.s).value)
  {
    if !(payload.Str? && payload.s != "") then Failure(InvalidInput)
    else if privateKey.None? then Failure(KeyUnavailable)
    else
      match rsa(privateKey.value, payload.s)
      case Failure(e) => Failure(DecryptionFailed(e))
      case Success(text) => Success(Trim(text))
  }
}
