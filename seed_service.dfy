/**
 * app/index.js: the three request handlers around the seed file. The file
 * `seed.txt` is the single slot `seedFile` (None while it does not exist);
 * only `/decrypt-seed` writes it, and the other two handlers read it and
 * re-check it on every request.
 */
module SeedService {

  import opened Wrappers
  import opened JsText
  import Hex
  import Totp
  import Decryptor

  const MissingEncryptedSeed := "Missing encrypted_seed"
  const DecryptionFailed := "Decryption failed"
  const FailedToPersistSeed := "Failed to persist seed"
  const SeedNotDecryptedYet := "Seed not decrypted yet"
  const MissingCode := "Missing code"

  /** The JSON bodies the handlers send. */
  datatype Body =
    | ErrorBody(error: string)
    | StatusBody(status: string)
    | CodeBody(code: string, validFor: int)
    | ValidBody(valid: bool)

  datatype Response = Response(status: nat, body: Body)

  /**
   * The seed as `/generate-2fa` and `/verify-2fa` read it: the file's text,
   * trimmed, when that passes the 64-hex gate; nothing otherwise.
   */
  function UsableSeed(file: Option<string>): (r: Option<string>)
    ensures r.Some? <==> file.Some? && Hex.IsSeedFormat(Trim(file.value))
    ensures r.Some? ==> r.value == Trim(file.value) && Hex.IsSeedFormat(r.value)
  {
    if file.Some? && Hex.IsSeedFormat(Trim(file.value)) then Some(Trim(file.value)) else None
  }

  /** A file that holds nothing but a gated seed is usable exactly when it exists. */
  lemma GatedFileIsUsable(file: Option<string>)
    requires file.Some? ==> Hex.IsSeedFormat(file.value)
    ensures UsableSeed(file).Some? <==> file.Some?
  {
    if file.Some? {
      UsableSeedOfWritten(file.value);
    }
  }

  /** Whatever `/decrypt-seed` writes, the readers take back unchanged. */
  lemma UsableSeedOfWritten(seed: string)
    requires Hex.IsSeedFormat(seed)
    ensures UsableSeed(Some(seed)) == Some(seed)
  {
    assert !IsJsWhitespace(seed[0]) && !IsJsWhitespace(seed[|seed| - 1]);
    TrimOfTrimmed(seed);
  }

  class Service {

    /** The contents of `seed.txt`, or None while the file does not exist. */
    var seedFile: Option<string>

    /** The slot holds nothing but a gated seed, if anything. */
    ghost predicate Valid()
      reads this
    {
      seedFile.Some? ==> Hex.IsSeedFormat(seedFile.value)
    }

    constructor (initial: Option<string>)
      ensures seedFile == initial
    {
      seedFile := initial;
    }

    /**
     * POST /decrypt-seed. `writeSucceeds` is the outcome of creating the data
     * directory and writing the file. A falsy payload is refused before the
     * decryptor is called; a decryption failure and a decrypted text that
     * fails the gate give the same 500 answer; only a gated seed is written,
     * replacing any previous one.
     */
    method DecryptSeed(encryptedSeed: JsonValue, privateKey: Option<string>,
                       rsa: Decryptor.RsaOaepDecrypt, writeSucceeds: bool)
      returns (r: Response)
      modifies this
      ensures !Truthy(encryptedSeed) ==>
                r == Response(400, ErrorBody(MissingEncryptedSeed)) && seedFile == old(seedFile)
      ensures Truthy(encryptedSeed) && Decryptor.DecryptSeedBase64(encryptedSeed, privateKey, rsa).Failure? ==>
                r == Response(500, ErrorBody(DecryptionFailed)) && seedFile == old(seedFile)
      ensures Truthy(encryptedSeed) && Decryptor.DecryptSeedBase64(encryptedSeed, privateKey, rsa).Success?
              && !Hex.IsSeedFormat(Decryptor.DecryptSeedBase64(encryptedSeed, privateKey, rsa).value) ==>
                r == Response(500, ErrorBody(DecryptionFailed)) && seedFile == old(seedFile)
      ensures Truthy(encryptedSeed) && Decryptor.DecryptSeedBase64(encryptedSeed, privateKey, rsa).Success?
              && Hex.IsSeedFormat(Decryptor.DecryptSeedBase64(encryptedSeed, privateKey, rsa).value) && !writeSucceeds ==>
                r == Response(500, ErrorBody(FailedToPersistSeed)) && seedFile == old(seedFile)
      ensures Truthy(encryptedSeed) && Decryptor.DecryptSeedBase64(encryptedSeed, privateKey, rsa).Success?
              && Hex.IsSeedFormat(Decryptor.DecryptSeedBase64(encryptedSeed, privateKey, rsa).value) && writeSucceeds ==>
                r == Response(200, StatusBody("ok"))
                && seedFile == Some(Decryptor.DecryptSeedBase64(encryptedSeed, privateKey, rsa).value)
      ensures seedFile != old(seedFile) ==> seedFile.Some? && Hex.IsSeedFormat(seedFile.value)
      ensures old(Valid()) ==> Valid()
    {
      if !Truthy(encryptedSeed) {
        return Response(400, ErrorBody(MissingEncryptedSeed));
      }
      var decrypted := Decryptor.DecryptSeedBase64(encryptedSeed, privateKey, rsa);
      if decrypted.Failure? {
        return Response(500, ErrorBody(DecryptionFailed));
      }
      var hex := Trim(decrypted.value);
      TrimOfTrimmed(decrypted.value);
      if !Hex.IsSeedFormat(hex) {
        return Response(500, ErrorBody(DecryptionFailed));
      }
      if !writeSucceeds {
        return Response(500, ErrorBody(FailedToPersistSeed));
      }
      seedFile := Some(hex);
      r := Response(200, StatusBody("ok"));
    }

    /**
     * GET /generate-2fa: without a usable seed, 500 "Seed not decrypted yet";
     * otherwise the code of the current window and the seconds it has left.
     */
    method Generate2fa(now: int, hotp: Totp.Hotp) returns (r: Response)
      ensures UsableSeed(seedFile).None? ==> r == Response(500, ErrorBody(SeedNotDecryptedYet))
      ensures UsableSeed(seedFile).Some? ==>
                var key := Totp.HexToBase32(Some(UsableSeed(seedFile).value)).value;
                && r.status == 200 && r.body.CodeBody?
                && Totp.IsCode(r.body.code)
                && r.body.code == Totp.CodeAt(hotp, key, Totp.Counter(now))
                && r.body.validFor == Totp.ValidFor(now)
      ensures Valid() ==> (r.status == 200 <==> seedFile.Some?)
    {
      if Valid() {
        GatedFileIsUsable(seedFile);
      }
      var seed := UsableSeed(seedFile);
      if seed.None? {
        r := Response(500, ErrorBody(SeedNotDecryptedYet));
      } else {
        assert |seed.value| == Hex.SeedLength;
        var generated := Totp.GenerateTotp(seed.value, now, hotp);
        assert generated.Success?;
        r := Response(200, CodeBody(generated.value.code, generated.value.validFor));
      }
    }

    /**
     * POST /verify-2fa: a falsy code is refused first, then the seed is
     * checked as for /generate-2fa; otherwise the answer says whether
     * `String(code)` is the code of the current window or of one window
     * either side of it. A mismatch is a 200 answer, not an error.
     */
    method Verify2fa(code: JsonValue, now: int, hotp: Totp.Hotp) returns (r: Response)
      ensures !Truthy(code) ==> r == Response(400, ErrorBody(MissingCode))
      ensures Truthy(code) && UsableSeed(seedFile).None? ==>
                r == Response(500, ErrorBody(SeedNotDecryptedYet))
      ensures Truthy(code) && UsableSeed(seedFile).Some? ==>
                var key := Totp.HexToBase32(Some(UsableSeed(seedFile).value)).value;
                && r.status == 200 && r.body.ValidBody?
                && (r.body.valid <==> Totp.IssuedWithin(hotp, key, ToJsString(code),
                                                        Totp.Counter(now) - 1, Totp.Counter(now) + 1))
    {
      var seed := UsableSeed(seedFile);
      if !Truthy(code) {
        r := Response(400, ErrorBody(MissingCode));
      } else if seed.None? {
        r := Response(500, ErrorBody(SeedNotDecryptedYet));
      } else {
        assert |seed.value| == Hex.SeedLength;
        var valid := Totp.VerifyTotp(seed.value, ToJsString(code), 1, now, hotp);
        assert valid.Success?;
        r := Response(200, ValidBody(valid.value));
      }
    }
  }

  /**
   * A fresh deployment, before any seed is decrypted: codes are refused, and
   * a payload the decryptor rejects is refused and leaves the slot empty.
   */
  method RefusedBeforeSeed(badPayload: string, key: string, rsa: Decryptor.RsaOaepDecrypt,
                           now: int, hotp: Totp.Hotp)
    returns (before: Response, rejected: Response, after: Response)
    requires badPayload != "" && Decryptor.DecryptSeedBase64(Str(badPayload), Some(key), rsa).Failure?
    ensures before == Response(500, ErrorBody(SeedNotDecryptedYet))
    ensures rejected == Response(500, ErrorBody(DecryptionFailed))
    ensures after == Response(500, ErrorBody(SeedNotDecryptedYet))
  {
    var service := new Service(None);
    before := service.Generate2fa(now, hotp);
    rejected := service.DecryptSeed(Str(badPayload), Some(key), rsa, true);
    assert service.seedFile == None;
    after := service.Generate2fa(now, hotp);
  }

  /**
   * A payload that decrypts to a seed is accepted, and the seed is what the
   * service then holds.
   */
  method AcceptsSeed(goodPayload: string, key: string, seed: string, rsa: Decryptor.RsaOaepDecrypt)
    returns (accepted: Response, stored: Option<string>)
    requires goodPayload != ""
    requires Decryptor.DecryptSeedBase64(Str(goodPayload), Some(key), rsa) == Success(seed)
    requires Hex.IsSeedFormat(seed)
    ensures accepted == Response(200, StatusBody("ok"))
    ensures stored == Some(seed)
  {
    var service := new Service(None);
    accepted := service.DecryptSeed(Str(goodPayload), Some(key), rsa, true);
    stored := service.seedFile;
  }

  /**
   * Once a seed is held, a 6-digit code is issued, and that code is accepted
   * at the same moment.
   */
  method IssuedCodeVerifies(seed: string, now: int, hotp: Totp.Hotp)
    returns (issued: Response, checked: Response)
    requires Hex.IsSeedFormat(seed)
    ensures issued.status == 200 && issued.body.CodeBody? && Totp.IsCode(issued.body.code)
    ensures checked == Response(200, ValidBody(true))
  {
    var k, c := KeyAndCounter(seed, now);
    var service := new Service(Some(seed));
    UsableSeedOfWritten(seed);
    issued := service.Generate2fa(now, hotp);
    CurrentCodeIsAccepted(hotp, k, issued.body.code, c);
    checked := service.Verify2fa(Str(issued.body.code), now, hotp);
  }

  /** The keying material of a stored seed, and the window counter at `now`. */
  lemma KeyAndCounter(seed: string, now: int) returns (k: string, c: int)
    requires Hex.IsSeedFormat(seed)
    ensures Totp.HexToBase32(Some(seed)).Success? && k == Totp.HexToBase32(Some(seed)).value
    ensures c == Totp.Counter(now)
  {
    k := Totp.HexToBase32(Some(seed)).value;
    c := Totp.Counter(now);
  }

  /** The code of the current window, sent back as a string, is one of the three accepted. */
  lemma CurrentCodeIsAccepted(hotp: Totp.Hotp, key: string, code: string, c: int)
    requires code == Totp.CodeAt(hotp, key, c)
    ensures Truthy(Str(code)) && ToJsString(Str(code)) == code
    ensures Totp.IssuedWithin(hotp, key, code, c - 1, c + 1)
  {
  }
}
