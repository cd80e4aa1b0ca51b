# Identity value objects: Email, Password, VerificationCode and ToBase64

This project models the account-domain value objects of the Balta domain
library and proves the behaviour their xUnit tests pin down:

- `string.ToBase64()` is standard Base64 with `=` padding, as section 4 of
  RFC 4648 defines it. It works over the string's bytes and throws
  `ArgumentNullException` on null. The model is a group-by-group encoder
  with a total, strict decoder. Round trips are proved in both directions,
  so the encoding is injective.
- `Email.ShouldCreate` trims and lower-cases its input, then checks it
  against an address grammar. It keeps the normalised address and its
  Base64 as the hash, and otherwise throws `InvalidEmailException("E-mail
  inválido")`. The grammar:
  - exactly one `@`;
  - a local part of non-empty dot-separated atoms over `a-z0-9_%+-`;
  - a domain of at least two non-empty dot-separated labels over `a-z0-9-`.
- `Password.ShouldCreate` rejects three kinds of plaintext, in this order,
  each with its own message:
  - null or blank;
  - shorter than 8 UTF-16 code units;
  - 48 or more.

  An accepted plaintext is replaced by a salted hash:
  `Base64(salt) + "." + Base64(key)`, where the key comes from a
  key-derivation function. `ShouldMatch` splits a stored hash, decodes it
  and re-derives the key. `ShouldGenerate` fills a buffer of the requested
  length from random draws. A `Password` object has `ExpiresAtUtc` and
  `MustChange` fields.
- `VerificationCode` is a class:
  - its code is six random digits, and it expires a positive lifetime after
    its creation instant;
  - it starts inactive and unverified;
  - `ShouldVerify` accepts the code itself exactly once, while the code is
    active and not yet expired.

  A ghost counter in `Valid()` records that a code is verified at most once.

Randomness is an input everywhere it occurs. These inputs are:
- the salt;
- the draws of `ShouldGenerate`;
- the digits of a verification code.

The clock (`IDateTimeProvider.UtcNow`) is an integer `Instant` parameter.
The key-derivation function is a parameter of type
`(Salt, string) -> Key`: only its input and output sizes are modelled.

Files: `wrappers.dfy` (Option, Result, Outcome), `clock.dfy` (Instant),
`strings.dfy` (.NET string operations), `base64.dfy` (`StringExtensions`),
`email.dfy` (`Emails`), `password.dfy` (`Passwords`),
`verification_code.dfy` (`VerificationCodes`).

## Model

| member | source | states |
|---|---|---|
| Strings.Trim | unit-tests/Balta.Domain.Test/AccountContext/ValueObjects/EmailTests.cs:33-44 | the result is a contiguous slice of the input with only white space cut off on each side, and it is empty or starts and ends with a non-white-space character |
| Strings.TrimBlank | unit-tests/Balta.Domain.Test/AccountContext/ValueObjects/EmailTests.cs:46-63 | trimming leaves nothing exactly when the input is all white space |
| Strings.IsNullOrWhiteSpace | unit-tests/Balta.Domain.Test/AccountContext/ValueObjects/PasswordTests.cs:10-32 | holds exactly for null and for the strings that trim to nothing |
| Strings.ToLower | unit-tests/Balta.Domain.Test/AccountContext/ValueObjects/EmailTests.cs:76-87 | keeps the length and lower-cases each character: A–Z become a–z and every other character is kept |
| Strings.ToLowerOfLower | unit-tests/Balta.Domain.Test/AccountContext/ValueObjects/EmailTests.cs:76-87 | a string with no upper-case ASCII letter is its own lower-casing |
| Strings.Utf16Length | unit-tests/Balta.Domain.Test/AccountContext/ValueObjects/PasswordTests.cs:34-49 | a string of n characters has n to 2n UTF-16 code units, and exactly n when no character lies beyond U+FFFF |
| StringExtensions.ToBase64 | unit-tests/Balta.Domain.Test/SharedContext/Extensions/StringExtensionsTests.cs:9-45 | null input fails with ArgumentNullException and only null does; otherwise the result decodes back to the input's bytes and has length 4·⌈n/3⌉ |
| StringExtensions.Encode | unit-tests/Balta.Domain.Test/SharedContext/Extensions/StringExtensionsTests.cs:9-21 | output is 4·⌈n/3⌉ characters: alphabet characters followed by exactly (3 − n mod 3) mod 3 `=` pads |
| StringExtensions.DecodeEncode | unit-tests/Balta.Domain.Test/SharedContext/Extensions/StringExtensionsTests.cs:9-21 | decoding the encoding of any byte sequence gives it back |
| StringExtensions.EncodeDecode | unit-tests/Balta.Domain.Test/SharedContext/Extensions/StringExtensionsTests.cs:9-21 | every string the decoder accepts is the encoding of what it decodes to, so the decoder accepts only canonical Base64 |
| StringExtensions.EncodeInjective | unit-tests/Balta.Domain.Test/AccountContext/ValueObjects/EmailTests.cs:102-111 | different byte sequences have different encodings |
| StringExtensions.ToBase64Injective | unit-tests/Balta.Domain.Test/AccountContext/ValueObjects/EmailTests.cs:102-111 | different ASCII strings have different Base64 strings |
| StringExtensions.HelloWorldVector | unit-tests/Balta.Domain.Test/SharedContext/Extensions/StringExtensionsTests.cs:9-21 | "Hello, World!" encodes to "SGVsbG8sIFdvcmxkIQ==" |
| StringExtensions.EmptyAndNull | unit-tests/Balta.Domain.Test/SharedContext/Extensions/StringExtensionsTests.cs:23-45 | "" encodes to "" and null fails with ArgumentNullException |
| Emails.IsValidAddress | unit-tests/Balta.Domain.Test/AccountContext/ValueObjects/EmailTests.cs:65-87 | a grammatical address holds an '@' and a dot, and neither starts nor ends with a dot or an '@' |
| Emails.Normalize | unit-tests/Balta.Domain.Test/AccountContext/ValueObjects/EmailTests.cs:20-44 | the trimmed, lower-cased input is no longer than the input, is empty exactly when the input is blank, has no white space at either end and no upper-case ASCII letter |
| Emails.ShouldCreate | unit-tests/Balta.Domain.Test/AccountContext/ValueObjects/EmailTests.cs:20-99 | succeeds iff the trimmed, lower-cased input is grammatical; the address is that normalised input and is ASCII; the hash is its Base64; a failure carries "E-mail inválido" |
| Emails.Email.ToString | unit-tests/Balta.Domain.Test/AccountContext/ValueObjects/EmailTests.cs:128-152 | the explicit string conversion and ToString give the address |
| Emails.NormalizeIdempotent | unit-tests/Balta.Domain.Test/AccountContext/ValueObjects/EmailTests.cs:20-44 | trimming and lower-casing twice is the same as once |
| Emails.CreateFromAddress | unit-tests/Balta.Domain.Test/AccountContext/ValueObjects/EmailTests.cs:114-125 | creating an email from a created email's address gives the same email |
| Emails.CreateValid | unit-tests/Balta.Domain.Test/AccountContext/ValueObjects/EmailTests.cs:114-125 | a grammatical address is accepted and kept exactly as given |
| Emails.ValidAddressIsNormal | unit-tests/Balta.Domain.Test/AccountContext/ValueObjects/EmailTests.cs:76-87 | a grammatical address is ASCII and is unchanged by trimming and lower-casing |
| Emails.BlankRejected | unit-tests/Balta.Domain.Test/AccountContext/ValueObjects/EmailTests.cs:46-63 | empty and white-space-only inputs fail with "E-mail inválido" |
| Emails.ValidAddressShape | unit-tests/Balta.Domain.Test/AccountContext/ValueObjects/EmailTests.cs:65-74 | a grammatical address has exactly one '@', with a local part before it and a domain after it |
| Emails.DomainShape | unit-tests/Balta.Domain.Test/AccountContext/ValueObjects/EmailTests.cs:65-74 | a grammatical domain contains a dot, does not start or end with one and has no two dots in a row |
| Emails.LocalPartShape | unit-tests/Balta.Domain.Test/AccountContext/ValueObjects/EmailTests.cs:65-74 | a grammatical local part is non-empty, does not start or end with a dot and has no two dots in a row |
| Emails.DoubleAtInvalid | unit-tests/Balta.Domain.Test/AccountContext/ValueObjects/EmailTests.cs:66 | an address with two '@' in a row is not grammatical |
| Emails.BadDomainInvalid | unit-tests/Balta.Domain.Test/AccountContext/ValueObjects/EmailTests.cs:67-69 | an address whose text after an '@' is not a domain is not grammatical |
| Emails.HashesDistinguishAddresses | unit-tests/Balta.Domain.Test/AccountContext/ValueObjects/EmailTests.cs:90-111 | two created emails have equal hashes iff they have equal addresses |
| Emails.LowerCasedExample | unit-tests/Balta.Domain.Test/AccountContext/ValueObjects/EmailTests.cs:20-31 | "EmailTests@Testes.Com" gives the address "emailtests@testes.com" |
| Emails.TrimmedExample | unit-tests/Balta.Domain.Test/AccountContext/ValueObjects/EmailTests.cs:33-44 | " emailTests@testes.com " gives the address "emailtests@testes.com" |
| Emails.DoubleAtRejected | unit-tests/Balta.Domain.Test/AccountContext/ValueObjects/EmailTests.cs:65-74 | "emailTests@@testes.com" fails with "E-mail inválido" |
| Emails.DoubleDotRejected | unit-tests/Balta.Domain.Test/AccountContext/ValueObjects/EmailTests.cs:65-74 | "emailTests@testes..com" fails with "E-mail inválido" |
| Emails.LeadingDotRejected | unit-tests/Balta.Domain.Test/AccountContext/ValueObjects/EmailTests.cs:65-74 | "emailTests@.com" fails with "E-mail inválido" |
| Emails.SingleLabelRejected | unit-tests/Balta.Domain.Test/AccountContext/ValueObjects/EmailTests.cs:65-74 | "emailTests@com" fails with "E-mail inválido" |
| Emails.MixedCaseAccepted | unit-tests/Balta.Domain.Test/AccountContext/ValueObjects/EmailTests.cs:76-87 | "emailTests@testes.com" is accepted with address and string conversion equal to its lower-cased form |
| Emails.UpperCaseAccepted | unit-tests/Balta.Domain.Test/AccountContext/ValueObjects/EmailTests.cs:76-87 | "TestEmail@TESTES.COM" is accepted with address equal to its lower-cased form |
| Emails.NormalizedAccepted | unit-tests/Balta.Domain.Test/AccountContext/ValueObjects/EmailTests.cs:114-125 | "test@test.com" is accepted and kept as it is |
| Emails.NumberedAddressAccepted | unit-tests/Balta.Domain.Test/AccountContext/ValueObjects/EmailTests.cs:102-111 | "emailN@testes.com" for a digit N is accepted and kept as it is |
| Emails.DistinctNumberedHashes | unit-tests/Balta.Domain.Test/AccountContext/ValueObjects/EmailTests.cs:102-111 | "emailN@testes.com" addresses with two different digits N are both accepted and get different hashes |
| Passwords.CheckPlaintext | unit-tests/Balta.Domain.Test/AccountContext/ValueObjects/PasswordTests.cs:10-49 | passes iff the plaintext is not null or blank and has 8 to 47 UTF-16 code units; otherwise fails with the blank, too-short or too-long message, checked in that order |
| Passwords.RejectedPlaintexts | unit-tests/Balta.Domain.Test/AccountContext/ValueObjects/PasswordTests.cs:10-49 | null, "" and "   " get the blank message, "1234567" the too-short message, 49 'a's the too-long message |
| Passwords.AcceptedPlaintexts | unit-tests/Balta.Domain.Test/AccountContext/ValueObjects/PasswordTests.cs:51-69 | "SecureP@ssw0rd" and "ExpiredP@ssword" pass every check |
| Passwords.HashOf | unit-tests/Balta.Domain.Test/AccountContext/ValueObjects/PasswordTests.cs:51-59 | a stored hash is always 69 characters long |
| Passwords.MatchCharacterisation | unit-tests/Balta.Domain.Test/AccountContext/ValueObjects/PasswordTests.cs:61-69 | a stored hash matches a candidate iff the candidate derives the same key under the stored salt; it always matches the plaintext it was made from |
| Passwords.ShouldMatch | unit-tests/Balta.Domain.Test/AccountContext/ValueObjects/PasswordTests.cs:61-69 | a match means the stored hash is the hash of the candidate under some salt |
| Passwords.MatchIffHashOf | unit-tests/Balta.Domain.Test/AccountContext/ValueObjects/PasswordTests.cs:61-69 | a stored hash matches a candidate exactly when it is the hash of that candidate under some salt |
| Passwords.Password.ShouldCreate | unit-tests/Balta.Domain.Test/AccountContext/ValueObjects/PasswordTests.cs:10-69 | fails exactly as CheckPlaintext does; otherwise a new password whose hash differs from the plaintext and matches it, with no expiry and MustChange false |
| Passwords.Password.ToString | unit-tests/Balta.Domain.Test/AccountContext/ValueObjects/PasswordTests.cs:82-100 | the implicit string conversion and ToString give the hash |
| Passwords.Password.SetExpiresAtUtc | unit-tests/Balta.Domain.Test/AccountContext/ValueObjects/PasswordTests.cs:116-130 | sets ExpiresAtUtc and leaves MustChange alone |
| Passwords.Password.IsExpired | unit-tests/Balta.Domain.Test/AccountContext/ValueObjects/PasswordTests.cs:133 | a password is expired only when it has an expiry, and then exactly when now is past it |
| Passwords.ExpiryScenario | unit-tests/Balta.Domain.Test/AccountContext/ValueObjects/PasswordTests.cs:102-163 | a new password has no expiry, is not expired and need not be changed; once its expiry is a day before now it is expired |
| Passwords.ShouldGenerate | unit-tests/Balta.Domain.Test/AccountContext/ValueObjects/PasswordTests.cs:71-80 | the buffer the loop fills is the password the draws specify |
| Passwords.GeneratedProperties | unit-tests/Balta.Domain.Test/AccountContext/ValueObjects/PasswordTests.cs:71-80 | a generated password has the requested length and only pool characters; it has an upper-case letter when asked; it has a symbol from "!@#$%ˆ&*(){}[];" when asked and there is room |
| VerificationCodes.CodeFromDraws | unit-tests/Balta.Domain.Test/AccountContext/ValueObjects/VerificationCodeTest.cs:20-26 | a code is six decimal digits, one per draw |
| VerificationCodes.VerificationCode.ShouldCreate | unit-tests/Balta.Domain.Test/AccountContext/ValueObjects/VerificationCodeTest.cs:20-47 | a new code is valid, expires one lifetime after now, has no verification instant and is inactive |
| VerificationCodes.VerificationCode.Activate | unit-tests/Balta.Domain.Test/AccountContext/ValueObjects/VerificationCodeTest.cs:100 | makes an unverified code active and never reactivates a verified one |
| VerificationCodes.VerificationCode.ShouldVerify | unit-tests/Balta.Domain.Test/AccountContext/ValueObjects/VerificationCodeTest.cs:57-98 | passes iff the code is active, unverified, the candidate is the code and now is before the expiry; success records now and deactivates; failure changes nothing; a verified code always fails; at most one verification ever succeeds |
| VerificationCodes.CreationScenario | unit-tests/Balta.Domain.Test/AccountContext/ValueObjects/VerificationCodeTest.cs:20-47 | a new code has length 6, expires after now, has a null VerifiedAtUtc and is inactive |
| VerificationCodes.RejectionScenario | unit-tests/Balta.Domain.Test/AccountContext/ValueObjects/VerificationCodeTest.cs:57-98 | on a new code, null is rejected as empty, and "123456" and "WRONGCODE" as inactive |
| VerificationCodes.VerifyOnceScenario | unit-tests/Balta.Domain.Test/AccountContext/ValueObjects/VerificationCodeTest.cs:73-89 | after activation the code is accepted once and then rejected as already verified |
| VerificationCodes.ActiveRejectionScenario | unit-tests/Balta.Domain.Test/AccountContext/ValueObjects/VerificationCodeTest.cs:93-98 | an active code rejects a wrong candidate as a mismatch and its own code once the expiry instant is reached |

## Left out

- StringExtensions.ToBase64: requires an ASCII input, because the UTF-8 encoding of other characters is not modelled; for ASCII the bytes are the character codes.
- Emails.ShouldCreate: takes no clock, because the tests pass a mock `IDateTimeProvider` and no behaviour depends on it. A null input is not modelled, because the tests map null to "" before the call (EmailTests.cs:56).
- Emails.ShouldCreate: lower-cases ASCII letters only, because culture-sensitive lower-casing is not modelled. Where .NET lower-cases a non-ASCII character to an ASCII one (U+212A KELVIN SIGN becomes `k`), the program can accept an input that the model rejects.
- The address grammar is this model's reading of the tests and of the stated rules. The implementation's regular expression is not part of this model.
- Passwords.HashOf: the key derivation is a parameter. Its iteration count, the underlying hash algorithm and its one-way property are not modelled. The `salt.key` layout of the stored hash is a modelling choice.
- Passwords.CheckPlaintext: rejecting exactly 48 characters as too long is a modelling choice taken from the message "less than 48". The tests pin down only 49 characters (PasswordTests.cs:45-48).
- Passwords.ShouldMatch: constant-time comparison and null arguments are not modelled.
- Passwords.ShouldGenerate: the draws are inputs. Reserving position 0 for an upper-case letter and the next position for a symbol is a modelling choice that meets the test's guarantee. The implementation's layout is not part of this model.
- Passwords.Password.SetExpiresAtUtc stands in for the test's reflection write to the backing field (PasswordTests.cs:123-130). No operation that sets MustChange is shown, so only its default is modelled.
- VerificationCodes.VerificationCode.ShouldCreate: the lifetime is a positive parameter, because the tests fix no window. VerificationCodeTest.cs:49-55 is not encoded: it expects a code created at an instant to be already expired at that instant, which contradicts lines 28-33.
- VerificationCodes.VerificationCode.ShouldVerify: the exception messages are not shown, so failures carry a reason instead. The clock is the `now` parameter. A code counts as expired from its expiry instant on, a boundary the tests do not pin down. The candidate is compared exactly.
- VerificationCodeTest.cs:73-89 has no `[Fact]`. As written, its second call runs against a newly created code. VerifyOnceScenario states what its name promises: a second verification of the same code fails.
- Concurrency: the objects are used by one thread at a time. Serialising concurrent verifications is the owning aggregate's job.
