# Seed custody and TOTP service, modelled in Dafny

The system keeps one secret: a 64-character hex seed that a client sends
RSA-encrypted to `POST /decrypt-seed`. The service decrypts the seed, checks it
against the gate `^[0-9a-fA-F]{64}$` after trimming, and stores it as `seed.txt`.
From that file, `GET /generate-2fa` issues 6-digit time-based one-time codes
(RFC 6238, 30-second steps, HMAC-SHA1), and `POST /verify-2fa` checks a
submitted code. The handler asks for a tolerance of one step either way, but
the call as written in app/totp.js:28 checks only the current window (see
"## Findings"); the model's handler uses the corrected check. A cron job reads the
same file and prints the current code with a UTC timestamp.

The model has one module per concern:

- `JsText`: the JavaScript string behaviour the code relies on.
  - `trim` and its whitespace set.
  - `padStart`.
  - `String()` of a number.
  - Truthiness of a JSON request field.
- `Hex`: the 64-hex gate and Node's lenient `Buffer.from(s, 'hex')`.
- `Base32`: base32 encoding per section 6 of RFC 4648, with padding. It also
  has a strict decoder, used as the inverse the round-trip lemmas are stated
  against.
- `Totp`: `app/totp.js`.
  - The seed's keying material.
  - The time-step counter and `valid_for`.
  - Code generation and the windowed check.
- `Decryptor`: `decryptSeedBase64` from `app/crypto.js`. RSA itself is an
  injected function.
- `SeedService`: the three handlers of `app/index.js`.
  - They are methods of a `Service` class.
  - Its field `seedFile` is the seed file: `None` while the file does not exist.
- `CronLog`: `scripts/log_2fa_cron.js`.
  - The timestamp format.
  - The line printed for each outcome of reading the seed file.
  - The exit status.

These are parameters instead of real I/O:

- The clock: `now`, in Unix seconds, and the UTC calendar fields.
- The outcome of writing the seed file: `writeSucceeds`.
- The private key: `privateKey`, which is `None` when the key file is missing.
- RSA-OAEP decryption: `rsa`.
- HMAC-SHA1 with RFC 4226 dynamic truncation: `hotp`, which maps a key text
  and a counter to the truncated 31-bit value.

## Model

| member | source | states |
|---|---|---|
| JsText.TrimStart | app/index.js:43 | the result is a suffix of the input; everything dropped is JS whitespace; the result does not start with whitespace |
| JsText.TrimEnd | app/index.js:43 | the result is a prefix of the input; everything dropped is JS whitespace; the result does not end with whitespace |
| JsText.Trim | app/index.js:43 | the trimmed text has no whitespace at either end and is no longer than the input |
| JsText.TrimIsSlice | app/index.js:43 | trimming keeps a slice `s[lo..hi]` of the input; only whitespace lies before `lo` and after `hi` |
| JsText.TrimOfTrimmed | app/crypto.js:38 | a text with no whitespace at either end survives `trim` unchanged, so the second `trim` at app/index.js:43 and :57 changes nothing |
| JsText.TrimIdempotent | app/index.js:57 | trimming twice equals trimming once |
| JsText.PadStart | scripts/log_2fa_cron.js:20-24 | `padStart(n, fill)`: the input is kept as a suffix; it is preceded by fill characters up to length `n`; a longer input is unchanged |
| JsText.NatToDecimal | scripts/log_2fa_cron.js:20 | `String(n)` of a natural number: a non-empty string of decimal digits whose value is `n`, with no leading zero except for 0 itself |
| JsText.IntToString | scripts/log_2fa_cron.js:25 | `String(n)` of an integer: the digits of `n`, with a `-` in front for a negative number |
| JsText.DecimalLength | scripts/log_2fa_cron.js:20-24 | a number below `10^k` is written with at most `k` digits, and one of at least `10^(k-1)` with at least `k` |
| JsText.PaddedDecimal | scripts/log_2fa_cron.js:20-24 | padding the digits of `n < 10^w` with `0` to width `w` gives exactly `w` digits whose value is still `n` |
| JsText.ToJsString | app/index.js:109 | `String(code)`: a string field is passed through unchanged; a non-negative number becomes its decimal digits, whose value is the number, with no leading zero unless the number is 0; a negative number starts with `-` |
| JsText.Truthy | app/index.js:29 | `!encrypted_seed`, and `!code` at app/index.js:103: a field is falsy exactly when it is absent, `null`, `false`, `0` or the empty string; `true` and any other string, number or object are truthy |
| Hex.HexValue | app/totp.js:8 | the value of a hex digit is below 16 |
| Hex.IsSeedFormat | app/index.js:43 | the gate `/^[0-9a-fA-F]{64}$/`, also applied at app/index.js:89 and 107 and scripts/log_2fa_cron.js:36: exactly 64 characters, each a decimal digit or a letter `a`-`f` of either case |
| Hex.HexValueCase | app/totp.js:8 | two hex digits have the same value exactly when they are the same digit up to case |
| Hex.PairByteInjective | app/totp.js:8 | two pairs of hex digits that give the same byte have the same digit values |
| Hex.DecodeHex | app/totp.js:8 | `Buffer.from(s, 'hex')` yields at most `⌊\|s\|/2⌋` bytes |
| Hex.DecodeHexAt | app/totp.js:8 | byte `i` of the result comes from the hex pair at positions `2i` and `2i+1` |
| Hex.DecodeHexStops | app/totp.js:8 | decoding stops only at the end of the input or at the first pair that is not two hex digits |
| Hex.SeedDecodesTo32Bytes | app/totp.js:8 | a seed that passes the 64-hex gate decodes to exactly 32 bytes |
| Hex.SeedBytesIffSameIgnoringCase | app/totp.js:8 | two gated seeds decode to the same bytes exactly when they spell the same digits up to case |
| Base32.Symbol | app/totp.js:9 | a 5-bit value maps to a symbol of the RFC 4648 base32 alphabet |
| Base32.SymbolValue | app/totp.js:9 | reading a symbol gives a 5-bit value whose symbol is the one read, so `Symbol` and `SymbolValue` are inverse |
| Base32.EncodeGroup | app/totp.js:9 | each group of 1 to 5 bytes becomes exactly 8 characters |
| Base32.Symbols | app/totp.js:9 | the unpadded symbols of the encoding use only the base32 alphabet |
| Base32.Encode | app/totp.js:9 | `hiBase32.encode`: the bytes in groups of 5, each group encoded as 8 characters padded with `=`: the result is a whole number of 8-character groups, and empty exactly when there are no bytes. Its exact length, its split into symbols and padding, and its inverse are the lemmas below |
| Base32.SymbolsLength | app/totp.js:9 | `n` bytes give `⌈8n/5⌉` symbols |
| Base32.EncodeIsSymbolsThenPadding | app/totp.js:9 | the padded encoding is the unpadded symbols followed by `=` only |
| Base32.EncodeLength | app/totp.js:9 | the padded encoding of `n` bytes has `8⌈n/5⌉` characters, a multiple of 8 |
| Base32.GroupRoundTrip | app/totp.js:9 | decoding one encoded group gives the group back |
| Base32.DecodeEncode | app/totp.js:9 | decoding the padded encoding gives the original bytes back, for every byte sequence |
| Base32.StripPadding | app/totp.js:11 | `replace(/=+$/g, '')`: the result is a prefix that does not end in `=`, and only `=` was removed |
| Base32.StripPaddingAfter | app/totp.js:11 | stripping the padding appended to a text that does not end in `=` gives that text back |
| Base32.Repad | app/totp.js:9-11 | appending `=` keeps the text as a prefix and gives a length that is a multiple of 8 |
| Base32.Unpadded | app/totp.js:9-11 | the stripped encoding uses only base32 symbols and does not end in `=` |
| Base32.UnpaddedIsSymbols | app/totp.js:9-11 | stripping the padding from the padded encoding leaves exactly the symbols without padding, and re-padding those symbols gives the padded encoding back |
| Base32.RepadSymbols | app/totp.js:9-11 | re-padding the unpadded symbols restores the padded encoding |
| Base32.UnpaddedRoundTrip | app/totp.js:9-11 | the stripped encoding of `n` bytes has `⌈8n/5⌉` base32 symbols, and re-padding and decoding it gives the bytes back |
| Base32.UnpaddedInjective | app/totp.js:9-11 | different byte sequences never have the same stripped encoding |
| Totp.HexToBase32 | app/totp.js:6-13 | fails with "Missing hex seed" exactly when there is no string or it is empty; otherwise the result uses only base32 symbols and does not end in `=` |
| Totp.ConfiguredOptions | app/totp.js:4 | `totp.options`: every code uses 30-second steps, 6 digits (values below 10^6) and HMAC-SHA1 |
| Totp.KeyingMaterialRoundTrip | app/totp.js:6-13 | re-padding and base32-decoding the keying material gives the bytes of the hex seed |
| Totp.SeedKeyingMaterialLength | app/totp.js:6-13 | a gated seed is never refused, and its keying material is 52 characters long |
| Totp.KeyingMaterialIffSameSeed | app/totp.js:6-13 | two gated seeds share keying material exactly when they are the same seed up to hex case |
| Totp.Counter | app/totp.js:18 | the step counter `T` is the 30-second window holding `now`: `30T <= now < 30T + 30` |
| Totp.WindowSpan | app/totp.js:18 | every second from `30k` to `30k + 29` lies in window `k` |
| Totp.JsRemainder | app/totp.js:20 | JavaScript's `%` on integers: for a non-negative dividend the ordinary remainder; for a negative one the remainder of division truncated toward zero (`a == b * -((-a) / b) + r`), which lies in `(-b, 0]` |
| Totp.ValidFor | app/totp.js:19-20 | for `now >= 0`: the seconds until the next window starts, between 1 and 30, and 30 exactly on a window boundary |
| Totp.NumberCodeSpelling | app/index.js:109 | a code sent as a JSON number `n` becomes, through `String(code)`, a 6-character code exactly when `100000 <= n < 1000000`; so a code with a leading zero can never be matched when it is sent as a JSON number |
| Totp.FormatCode | app/totp.js:4 | a code is exactly 6 decimal digits, whose value is the truncated HMAC modulo `10^6` |
| Totp.CodeAt | app/totp.js:18 | the code of one window under one key is 6 digits |
| Totp.GenerateTotp | app/totp.js:16-22 | fails exactly when the seed is empty; otherwise gives the 6-digit code of the current window under the seed's keying material, and a `valid_for` equal to `30 - now % 30` with JavaScript's `%`, which for `now >= 0` lies between 1 and 30 |
| Totp.MatchesAny | app/totp.js:28 | true exactly when the code is the code of one of the `n` windows from `lo` on |
| Totp.VerifyTotp | app/totp.js:25-29 | fails exactly when the seed is empty; otherwise accepts exactly when the code is the code of some window in `[T - window, T + window]` |
| Totp.VerifyMonotoneInWindow | app/totp.js:25-29 | a code accepted with some tolerance is accepted with any larger one |
| Totp.VerifyWindowZero | app/totp.js:25-29 | with tolerance 0, only the current window's code is accepted |
| Totp.GeneratedCodeVerifies | app/totp.js:16-29 | a generated code is accepted at every time whose window lies within the tolerance of the window it was generated in |
| Totp.VerifyTotpAsWritten | app/totp.js:28 | the check as written: whatever tolerance is passed, it accepts exactly the current window's code |
| Totp.WindowArgumentIgnored | app/totp.js:28 | for every seed, under one fixed truncated-HMAC function (1 for counter 0, 0 for every other counter), a previous-window code at `now = 30` passes the intended ±1 check and fails the check as written |
| Decryptor.DecryptSeedBase64 | app/crypto.js:20-42 | a missing, empty or non-string payload is refused first; a missing key file comes next; otherwise the call succeeds exactly when RSA decryption succeeds, and gives the decrypted text trimmed |
| SeedService.UsableSeed | app/index.js:87-89 | a seed is usable exactly when the file exists and its trimmed text passes the 64-hex gate; the usable seed is that trimmed text |
| SeedService.UsableSeedOfWritten | app/index.js:88-89 | a gated seed, as `/decrypt-seed` writes it, is read back unchanged |
| SeedService.GatedFileIsUsable | app/index.js:87-89 | a seed file that holds nothing but a gated seed is usable exactly when it exists |
| SeedService.Service.constructor | app/index.js:17 | the service starts with the seed file as given |
| SeedService.Service.DecryptSeed | app/index.js:25-82 | 400 "Missing encrypted_seed" for a falsy payload; 500 "Decryption failed" when decryption fails or the text fails the gate; 500 "Failed to persist seed" when the write fails; in those cases the file is unchanged; otherwise 200 `{status: "ok"}` and the file holds the trimmed seed. Any changed file holds a gated seed, so the invariant is kept |
| SeedService.Service.Generate2fa | app/index.js:85-97 | 500 "Seed not decrypted yet" with no usable seed; otherwise 200 with the 6-digit code of the current window under that seed and its `valid_for`. Under the invariant, 200 exactly when the file exists |
| SeedService.Service.Verify2fa | app/index.js:100-115 | 400 "Missing code" for a falsy code; 500 "Seed not decrypted yet" with no usable seed; otherwise 200, with `valid` true exactly when `String(code)` is the code of window `T-1`, `T` or `T+1`. This is the corrected check `Totp.VerifyTotp`, not the call as written at app/totp.js:28, which checks window `T` only (see "## Findings") |
| SeedService.RefusedBeforeSeed | app/index.js:25-97 | on a fresh service codes are refused; a non-empty payload the decryptor rejects gets 500 "Decryption failed"; codes are still refused afterwards, because the slot stayed empty |
| SeedService.AcceptsSeed | app/index.js:25-76 | on a fresh service a non-empty payload that decrypts to a gated seed gets 200 `{status: "ok"}`, and the seed file then holds exactly that seed |
| SeedService.IssuedCodeVerifies | app/index.js:85-115 | once the seed file holds a gated seed, `/generate-2fa` answers 200 with a 6-digit code, and `/verify-2fa` accepts that same code at the same moment |
| CronLog.TwoDigits | scripts/log_2fa_cron.js:20-24 | a field below 100 is printed as exactly two digits whose value is the field |
| CronLog.UtcNowString | scripts/log_2fa_cron.js:17-26 | `YYYY-MM-DD HH:MM:SS`: the year as printed by `String`, then `-`, month (1-based), `-`, day, space, hours, `:`, minutes, `:`, seconds; each field two digits with its value |
| CronLog.TimestampOfFourDigitYear | scripts/log_2fa_cron.js:25 | for years 1000 to 9999 the stamp is 19 characters: the first four are the year's digits, and the separators sit at offsets 4, 7, 10, 13 and 16 |
| CronLog.RunCron | scripts/log_2fa_cron.js:28-47 | exit status 1 exactly on a read error; stdout exactly for a usable seed; the exact line for each case: "Seed not found at", "Invalid seed format at", "2FA Code: " followed by the current code, "ERROR: " followed by the message |

## Left out

- RSA-OAEP with SHA-256, base64 decoding of the payload and reading the PEM key file (app/crypto.js:12-17, 25-36) are the injected `rsa` and `privateKey`.
- HMAC-SHA1 and dynamic truncation inside otplib are the injected `hotp`. So is how otplib turns the keying-material text into HMAC key bytes.
- The otplib and hi-base32 libraries are not part of this model. `Base32` is written from RFC 4648.
- `Base32.Decode` exists only as the inverse for the round-trip lemmas. It does not reject non-zero bits in the last symbol.
- Express, `dotenv`, the 1 MB body limit, `GET /health`, the listening port and every `console.log`/`console.error` line other than the cron job's output are left out.
- Creating the data directory, the file mode `0o600` and the `stat` debug block are left out. A failed write is modelled as leaving the previous file untouched; a write that fails halfway and truncates the file is not modelled.
- Read errors in `/generate-2fa` and `/verify-2fa` (caught at app/index.js:93-96 and 111-114) are not modelled separately. They answer with the same 500 "Seed not decrypted yet" as a missing seed.
- The outer `catch` of `/decrypt-seed` (app/index.js:78-81) is not modelled, because nothing it guards can throw once the gate has passed. The cron job's single `catch` (scripts/log_2fa_cron.js:44-47) is modelled only for a failed read (`CronLog.RunCron`'s `ReadError`, exit status 1); `generateTotp` cannot throw on a seed that passed the gate (`Totp.SeedKeyingMaterialLength`), so that path is not modelled.
- Concurrent requests, and the cron job running beside the service, are left out. Each handler runs on its own.
- `Date.now()` and `new Date()` are inputs. `generateTotp` reads the clock twice: otplib reads it, then app/totp.js:19 reads it again. The model uses one reading for both.
- Converting a `Date` to its UTC calendar fields is left out. The fields are inputs.
- Totp.ValidFor: the bounds 1 to 30 are stated only for `now >= 0`. Before 1970, JavaScript's `%` is negative and `valid_for` can reach 59.
- JsText.ToJsString: numbers that JavaScript prints in exponent notation (`1e21` and above) are not modelled. Nor is any number that is not an integer, because member `Number` holds an `int`. The textual form of objects and arrays is an opaque `Composite` text.
- Hex.DecodeHex: each character is judged by itself. Node's treatment of characters outside Latin-1 in a hex string is not modelled; it matters only for text that fails the gate anyway.

## Findings

| source | as written | input that shows it | evidently intended | confidence | as-written member | corrected member |
|---|---|---|---|---|---|---|
| app/totp.js:28 | `totp.check(String(code), b32, { window })` passes the tolerance as a third argument. otplib's `check(token, secret)` takes two, so the instance options from app/totp.js:4 apply. They name no window, and the library default is 0, so only the current window's code is accepted. | at `now = 30` (window 1), the code of window 0 | a tolerance of one step either way, as app/index.js:109 asks for ("±1 period tolerance") | medium; not executed; rests on otplib's two-argument `check`, and the library is not part of this model | Totp.VerifyTotpAsWritten, Totp.WindowArgumentIgnored | Totp.VerifyTotp (used by SeedService.Service.Verify2fa) |
