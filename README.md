# wauth core in Dafny

A Dafny model of the two parts of wauth that carry its logic:

- **The TOTP engine** (`Totp::generate_code`, `Totp::remaining_seconds` in
  `src/domain/totp.rs`). A code is TOTP as section 4 of RFC 6238 defines it,
  with time step X = 30 seconds and T0 = 0, on top of HOTP from RFC 4226 with
  HMAC-SHA1. The time step `now / 30` becomes an 8-byte big-endian counter
  (section 5.1 of RFC 4226). The HMAC digest is reduced by dynamic truncation
  (section 5.3 of RFC 4226), taken mod 10^6 and printed with `{:06}`.
- **The secret store** (`src/infrastructure/aws.rs`). This covers the
  validators `validate_site_name`, `validate_secret` and `is_valid_base32`,
  the `ValidationError` they return, and `DynamoDBRepository` with
  `save_secret`, `check_site_name_uniqueness`, `delete_secret`, `get_secret`
  and `list_sites`. The DynamoDB table is a `map<string, string>` field from
  site name to secret.

Files:

| file | module | what it holds |
|---|---|---|
| `results.dfy` | `Results` | `Option`, `Result`, and `Outcome` (Rust's `Result<(), E>`) |
| `powers.dfy` | `Powers` | natural-number powers, for 2^k, 256^k and 10^k |
| `bits.dfy` | `Bits` | Rust's `&`, `\|` and fixed-width `<<` on naturals, with the facts that turn masks into remainders and shift-and-OR into sums |
| `decimal.dfy` | `Decimal` | `format!("{}")` and `format!("{:0w}")` for unsigned integers |
| `totp.dfy` | `Totp` | the code generator, the window arithmetic, and the RFC 4226 worked example |
| `text.dfy` | `Text` | `char::is_whitespace`, `trim`, and `str::len` as a UTF-8 byte count |
| `validation.dfy` | `Validation` | the validators, their error values, and the Base32 pattern |
| `repository.dfy` | `Repository` | `DynamoDBRepository` over a map, and what a save does to the table |

The Base32 decoder and HMAC-SHA1 come from libraries, so they are parameters
of `GenerateCode`. They are typed `string -> Option<seq<byte>>` and
`(key, message) -> Option<Digest>`, where a `Digest` is 20 bytes. The clock
(`SystemTime::now`) is the parameter `now`: whole seconds since the epoch, as
a u64.

The regular expressions are character-class predicates. `^[A-Z2-7]+=*$` is
checked by a greedy scan (`MatchesBase32Pattern`). The scan is proved to
accept exactly the strings of the pattern's language (`InBase32Language`:
some split into one or more alphabet characters followed only by '=').

Rust's `len()` counts UTF-8 bytes, so the model does the same (`ByteLen`).
The site-name limit is therefore 100 bytes, even though its message says
"100 characters". One effect: a name of 51 copies of U+00E9 is refused with
the length message rather than the character-class message.

Error messages are a `Message` datatype. `Message.Text` gives each message's
exact text, and `Field.Name` gives the field names `site_name` and `secret`.
A duplicate site name is reported as a `site_name` validation error with the
message "Site name '<name>' already exists" (`Repository.AlreadyExists`).

## Model

| member | source | states |
|---|---|---|
| Totp.TimeStep | src/domain/totp.rs:20 | the counter is floor(now / 30): t·30 ≤ now < (t+1)·30 |
| Totp.BeBytesRoundTrip | src/domain/totp.rs:22 | reading back the big-endian bytes of a number that fits the width gives the number |
| Totp.CounterMessage | src/domain/totp.rs:20-22 | the HMAC message is 8 bytes that read back, big-endian, as now / 30 |
| Totp.SameMessageIffSameStep | src/domain/totp.rs:20-22 | two moments give the same HMAC message exactly when they fall in the same time step |
| Totp.TruncationOffset | src/domain/totp.rs:28 | the offset is byte 19 mod 16, at most 15, so offset+3 indexes inside the 20-byte digest |
| Totp.Assemble | src/domain/totp.rs:29-32 | the u32 shift-and-OR assembly, built from Rust's bit operators, equals (b0 mod 128)·2^24 + b1·2^16 + b2·2^8 + b3 and is below 2^31 |
| Totp.DynamicTruncation | src/domain/totp.rs:28-32 | dynamic truncation is the big-endian reading of the four digest bytes at the offset, with the top bit cleared, below 2^31 |
| Totp.HotpValue | src/domain/totp.rs:34 | the value reduced mod 1_000_000 is below 10^6 |
| Totp.Totp.GenerateCode | src/domain/totp.rs:16-35 | a decode failure gives InvalidSecret; a refused key gives InvalidKeyLength; otherwise the code is exactly six ASCII digits whose value is the HOTP value of the digest |
| Totp.Totp.RemainingSeconds | src/domain/totp.rs:37-43 | the result is between 1 and 30, is 30 exactly at a step boundary, and now + result is the next multiple of 30 |
| Totp.CodeStableWithinWindow | src/domain/totp.rs:16-34 | a later moment before the next boundary gives the same code, for any decoder and HMAC |
| Totp.Rfc4226TruncationExample | src/domain/totp.rs:28-34 | on the digest of section 5.4 of RFC 4226: offset 10, truncated value 0x50ef7f19, six-digit value 872921 |
| Totp.Rfc4226CodeText | src/domain/totp.rs:34 | 872921 renders as the text "872921" |
| Totp.Rfc4226CodeExample | src/domain/totp.rs:16-35 | a code generated from that digest is the text "872921" |
| Bits.AndLowMask | src/domain/totp.rs:28 | masking with k one-bits (`& 0xf`, `& 0x7f`) is the remainder mod 2^k |
| Bits.ShiftLeftInRange | src/domain/totp.rs:29-31 | a u32 left shift that loses no bit is a multiplication by 2^k |
| Bits.OrShifted | src/domain/totp.rs:29-32 | ORing a number below 2^k into a multiple of 2^k adds it |
| Decimal.Render | src/domain/totp.rs:34 | `{}` gives at least one digit, only digits, no leading zero unless the value is 0, and reads back as the value |
| Decimal.PadZeros | src/domain/totp.rs:34 | `{:0w}` pads on the left with '0' to the width, never truncating, keeping the text as the suffix |
| Decimal.ZeroPadded | src/domain/totp.rs:34 | `{:0w}` of a number gives at least w digits that read back as the number, and exactly w digits when the number is below 10^w |
| Decimal.ValueOfInjective | src/domain/totp.rs:34 | two digit strings of one length with one value are equal, so the code text is fixed by its value |
| Text.TrimStartSpec | src/infrastructure/aws.rs:172 | `trim_start` drops exactly a whitespace prefix |
| Text.TrimEndSpec | src/infrastructure/aws.rs:172 | `trim_end` drops exactly a whitespace suffix |
| Text.TrimEmptyIffAllWhitespace | src/infrastructure/aws.rs:172 | `trim().is_empty()` holds exactly when every character is whitespace |
| Text.ByteLen | src/infrastructure/aws.rs:180 | `len()` is between the character count and four times it |
| Text.ByteLenAscii | src/infrastructure/aws.rs:180 | `len()` equals the character count exactly when the string is ASCII |
| Text.RepeatedByteLen | src/infrastructure/aws.rs:180 | k copies of a character take k times its UTF-8 width in bytes |
| Validation.Field.Name | src/infrastructure/aws.rs:42-55 | the `field` of a `ValidationError`: "site_name" exactly for site-name errors and "secret" exactly for secret errors |
| Validation.Message.Text | src/infrastructure/aws.rs:159-164 | the `message` of a `ValidationError`: never empty, and the uniqueness message quotes the refused name right after its fixed prefix |
| Validation.ValidateSiteName | src/infrastructure/aws.rs:170-197 | every refusal is on the `site_name` field |
| Validation.SiteNameRuleOrder | src/infrastructure/aws.rs:170-197 | the empty message exactly for an all-whitespace name; the length message exactly for a non-blank name over 100 bytes; the character message exactly for a non-blank name within 100 bytes that does not match; acceptance exactly when all three rules hold |
| Validation.SiteNameAcceptedIff | src/infrastructure/aws.rs:188-196 | a name is accepted exactly when it matches `^[a-zA-Z0-9\-._]+$` with at most 100 characters; an accepted name is ASCII |
| Validation.SiteNamePatternIsAscii | src/infrastructure/aws.rs:188-189 | a name matching the class is ASCII, one byte per character, and not blank |
| Validation.MultiByteNameHitsLengthRule | src/infrastructure/aws.rs:180-194 | 51 copies of U+00E9 (102 bytes) get the length message, not the character message |
| Validation.EmptyNameExample | src/infrastructure/aws.rs:172-177 | the empty name gets the empty message |
| Validation.LongNameExample | src/infrastructure/aws.rs:180-185 | a 101-character name gets the length message |
| Validation.BadCharsNameExample | src/infrastructure/aws.rs:188-194 | "bad name!" gets the character message |
| Validation.GoodNameExample | src/infrastructure/aws.rs:170-197 | "github.com-2" is accepted |
| Validation.Base32RunSpec | src/infrastructure/aws.rs:225 | the greedy scan covers only alphabet characters and stops at the first other character |
| Validation.RunThenPadsScan | src/infrastructure/aws.rs:225 | on alphabet characters followed only by '=', the scan stops exactly at the split |
| Validation.Base32PatternMatchesLanguage | src/infrastructure/aws.rs:225 | the scan accepts exactly the strings of `^[A-Z2-7]+=*$` |
| Validation.Base32LanguageAscii | src/infrastructure/aws.rs:225-226 | a string of the pattern is ASCII, not blank, and has no lower-case letter |
| Validation.IsValidBase32 | src/infrastructure/aws.rs:224-227 | `is_valid_base32` holds exactly when the string is in the language of `^[A-Z2-7]+=*$` and its length is a multiple of 8 |
| Validation.ValidateSecret | src/infrastructure/aws.rs:199-222 | every refusal is on the `secret` field |
| Validation.SecretRuleOrder | src/infrastructure/aws.rs:199-222 | the empty message exactly for an all-whitespace secret; the Base32 message exactly for a non-blank secret that is not valid Base32; the length message exactly for valid Base32 shorter than 16 |
| Validation.SecretAcceptedIff | src/infrastructure/aws.rs:199-222 | a secret is accepted exactly when it matches the pattern with a length that is a multiple of 8 and at least 16; an accepted secret has no lower-case letter |
| Validation.LowerCaseSecretExample | src/infrastructure/aws.rs:206-211 | "short" gets the Base32 message |
| Validation.ShortSecretExample | src/infrastructure/aws.rs:214-219 | "ABCDEFGH" is valid Base32 but gets the length message |
| Validation.GoodSecretExample | src/infrastructure/aws.rs:199-222 | sixteen 'A's are accepted |
| Repository.AlreadyExists | src/infrastructure/aws.rs:159-164 | the uniqueness error is on `site_name` and its message quotes the refused name at a fixed place |
| Repository.SaveOutcome | src/infrastructure/aws.rs:71-92 | a refused save is refused on `site_name` or `secret`, a secret error only once the name passed; an accepted save passed both validators and its name is not stored |
| Repository.SaveAcceptedIff | src/infrastructure/aws.rs:71-92 | a save is accepted exactly when the name and the secret pass their patterns and bounds and the name is not stored |
| Repository.ValidationBeforeLookup | src/infrastructure/aws.rs:71-77 | invalid input gets the validator's error whatever the table holds; the uniqueness error comes exactly for valid input whose name is stored |
| Repository.SavedTable | src/infrastructure/aws.rs:77-89 | the table after a save keeps every stored entry, can gain only the saved name with the saved secret, and is unchanged exactly when the save is refused |
| Repository.SaveKeepsEntriesValid | src/infrastructure/aws.rs:71-89 | if every stored entry passes the validators, it still holds after a save |
| Repository.DynamoDBRepository.constructor | src/infrastructure/aws.rs:18-39 | the repository starts over the given table contents |
| Repository.DynamoDBRepository.SaveSecret | src/infrastructure/aws.rs:71-92 | the result is the save outcome on the old table; the table gains the entry only on success and is unchanged otherwise; entry validity is preserved |
| Repository.DynamoDBRepository.CheckSiteNameUniqueness | src/infrastructure/aws.rs:148-167 | passes exactly when the name is not stored, and otherwise fails with the uniqueness error |
| Repository.DynamoDBRepository.DeleteSecret | src/infrastructure/aws.rs:94-106 | the key is removed with no existence check, so deleting an absent site changes nothing; entry validity is preserved |
| Repository.DynamoDBRepository.GetSecret | src/infrastructure/aws.rs:108-123 | the stored secret exactly when the site is stored, otherwise None |
| Repository.DynamoDBRepository.ListSites | src/infrastructure/aws.rs:125-144 | every stored site name exactly once, and nothing else |

## Left out

- Store failures. Every DynamoDB call (`send().await?`) can fail with a network or service error. The model has no such errors: each call reaches the table and completes.
- Asynchrony, `consistent_read(true)`, and concurrent writers. The store is sequential. The race between the uniqueness lookup and `put_item` in `save_secret` is not modelled, and no atomicity is claimed for it.
- Client construction in `DynamoDBRepository::new`: config loading, AWS profile, credentials. The constructor takes the table contents instead. `src/infrastructure/config.rs` and `src/infrastructure/env.rs` are not part of this model.
- The Base32 decoder and HMAC-SHA1 internals. They are parameters, so the test vectors in Appendix B of RFC 6238 cannot be derived. What is proved from a given digest is everything after the HMAC. This includes the section 5.4 example of RFC 4226.
- The clock. `now` is a parameter. The pre-epoch `duration_since` error of `generate_code` (src/domain/totp.rs:20) and the `unwrap` panic of `remaining_seconds` (src/domain/totp.rs:40) cannot arise with a u64 `now`.
- Totp.Totp.RemainingSeconds: it takes `now` as an argument, where the source reads the clock itself.
- The regex engine. The two patterns are character-class predicates and a greedy scan. Only whole-string matching is modelled, which is what the anchors give.
- `get_secret` unwraps the `secret` attribute (src/infrastructure/aws.rs:121) and panics when it is missing or not a string. In the map model every item has a string secret, so that panic cannot arise.
- `list_sites` drops scanned items without a string `site_name` (src/infrastructure/aws.rs:136-140). Every map key is such a name, so nothing is dropped. The scan is also a single request, and DynamoDB returns at most one page per request. The model returns every key, so a table larger than one page is not modelled.
- Repository.DynamoDBRepository.ListSites: the scan order is left open, so the contract states membership and uniqueness but not order.
- The `Display` text of `ValidationError` (src/infrastructure/aws.rs:60-64), "Validation error for {field}: {message}", is presentation and is not modelled.
- `TOTPEntry` is declared in `src/domain/models.rs`, which is not part of this model. It is modelled as `TotpEntry(secret)`, the one field that `get_secret` fills in.
- The `TOTPRepository` trait (`src/domain/repository.rs`), the GraphQL schema, the application layer and the CLI forward calls or print. They are not modelled.
