# Toy authenticator, decomposed and monolithic

A Dafny model of the two TypeScript files in `srp/`, which implement the same
toy username/password authenticator twice to illustrate the Single
Responsibility Principle:

- `srp/good.ts` splits the work between `InMemoryUserRepository` (a map from
  username to user, changed in place by `save` and `remove`), `Hexer` (a
  reversible text encoder) and `BasicAuthenticator` (issues and checks tokens).
- `srp/bad.ts` does all of it in one `Authentication` class.

A token is the text `username:password`, converted to UTF-8 octets (RFC 3629)
and written as lower-case Base16 digits (section 8 of RFC 4648). `validateToken`
decodes a token, looks up the name before the first colon, re-derives that
user's token and demands that it equal the given one exactly.

Layout, one module per file:

| file | module | models |
|---|---|---|
| `wrappers.dfy` | `Wrappers` | `Option` (for `undefined`) and `Result` (for thrown errors) |
| `bytes.dfy` | `Bytes` | octets |
| `credentials.dfy` | `Credentials` | `User`, `Token`, the error kinds |
| `utf8.dfy` | `Utf8` | `TextEncoder.encode` / `TextDecoder.decode` (RFC 3629, and the decoder's removal of a leading U+FEFF) |
| `base16.dfy` | `Base16` | the imported hex `encode` / `decode` (section 8 of RFC 4648) |
| `hexer.dfy` | `Hexer` | `Hexer.encode`/`decode` in good.ts, `encodeText`/`decodeText` in bad.ts |
| `token_format.dfy` | `TokenFormat` | `createToken`, `parseToken`, `getUsernameFromToken` (identical in both files) |
| `srp_good.dfy` | `Srp` | `InMemoryUserRepository`, `BasicAuthenticator` |
| `srp_bad.dfy` | `NotSrp` | `Authentication` |
| `equivalence.dfy` | `Equivalence` | the two designs compared |

The repository and the monolith are classes whose `users` field is a
`map<string, User>` reassigned by `Save`, `Remove` and `RegisterUser`; their
`Valid()` invariant says every user is filed under its own username, which is
what `save`/`registerUser` guarantee. `getAll` keeps the source's loop that
fills a preallocated array. The encoder and the token helpers are pure
functions; the authenticators' operations are functions that read the store
and never change it.

**The credential check is kept as written.** Both `authenticate`
implementations compare the supplied password with the stored user's
*username* (`user.username === password`, srp/good.ts:98 and srp/bad.ts:50)
and never look at the stored password. The model keeps this.
`Srp.AuthenticateAcceptsOnlyUsername` shows its effect: in a well-keyed store,
the only password that authenticates a user is that user's own name.
`Srp.DemoLoginRejected` and `NotSrp.DemoLoginRejected` show that the demo's
login `authenticate("billy", "secret")` fails. It is almost certainly a
slip for `user.password === password`.

Three further details of the code are kept:

- `authenticate` builds the token from the stored user, not from its own arguments.
- In good.ts, a missing user surfaces as the repository's "user not found". The
  authenticator's own "invalid user" branch (srp/good.ts:107) cannot be reached.
- Both files decode with a default `TextDecoder` (srp/good.ts:58, srp/bad.ts:9),
  which drops a leading U+FEFF. So a token's text comes back without that
  character, and a user whose name begins with it never validates (see Findings).

## Model

| member | source | states |
|---|---|---|
| `Utf8.EncodeChar` | srp/good.ts:61 | one scalar value becomes 1 to 4 octets; the first is below 0x80 exactly for a one-octet form; the others are continuation octets |
| `Utf8.Encode` | srp/good.ts:61 | `TextEncoder.encode`: a string of n characters becomes between n and 4n octets |
| `Utf8.DecodeFirst` | srp/good.ts:63 | reads one well-formed UTF-8 sequence from the front; it consumes at least one octet and no more than there are |
| `Utf8.Decode` | srp/good.ts:58 | the strict decoding of RFC 3629 that `TextDecoder.decode` performs on well-formed input before it removes a byte-order mark: never yields more characters than octets |
| `Utf8.DecodeFirstOfEncodeChar` | srp/good.ts:61-63 | whatever follows, the decoder reads back exactly the encoded character and its length |
| `Utf8.DecodeFirstIsEncoding` | srp/good.ts:67-69 | the octets a successful read consumed are the encoding of the character read, so overlong forms and surrogates are refused |
| `Utf8.DecodeEncode` | srp/good.ts:61 | round trip of the strict decoding step: strictly decoding the encoding of any string gives the string (the default decoder's own round trip is `Utf8.TextDecodeEncode`) |
| `Utf8.EncodeDecode` | srp/good.ts:61 | converse round trip of the strict decoding step: any octets that strictly decode re-encode to themselves (for the default decoder see `Utf8.TextDecodeExactly`) |
| `Utf8.DecodeAscii` | srp/good.ts:63 | all-ASCII octets always decode, one character per octet with the same code |
| `Utf8.AsciiEncoding` | srp/good.ts:67 | a string whose octets are all ASCII is ASCII itself and is encoded octet-for-character |
| `Utf8.DropBom` | srp/good.ts:58 | removing a leading U+FEFF: the text is unchanged exactly when it does not begin with one, and otherwise loses only that character |
| `Utf8.TextDecode` | srp/good.ts:58 | `decode` of a `TextDecoder` built with default options, on well-formed input: succeeds exactly when the strict decoding does, and gives its result less a leading U+FEFF |
| `Utf8.BomOctets` | srp/good.ts:58 | U+FEFF is encoded as EF BB BF |
| `Utf8.EncodeStartsWithBom` | srp/good.ts:61 | a text begins with U+FEFF if and only if its encoding begins with EF BB BF |
| `Utf8.TextDecodeEncode` | srp/good.ts:61-69 | the source's encoder/decoder round trip gives back every text less a leading U+FEFF |
| `Utf8.TextDecodeExactly` | srp/good.ts:61-69 | the default decoder yields `t` from octets if and only if they are the encoding of `t` and `t` does not begin with U+FEFF, or they are EF BB BF followed by the encoding of `t` |
| `Base16.Digit` | srp/good.ts:62 | a nibble becomes a lower-case hex digit |
| `Base16.DigitValue` | srp/good.ts:68 | a digit of either case gives its nibble (0 to 15); any other octet gives nothing |
| `Base16.DigitValueOfDigit` | srp/good.ts:62-68 | the digit written for a nibble reads back as that nibble |
| `Base16.DigitOfDigitValue` | srp/good.ts:62-68 | a lower-case digit is the one written for the nibble it stands for |
| `Base16.Encode` | srp/good.ts:62 | exactly two lower-case digits per octet |
| `Base16.Decode` | srp/good.ts:68 | a successful decode yields half as many octets as digits |
| `Base16.DecodeEncode` | srp/good.ts:62-68 | round trip: the digits of any octets decode to those octets |
| `Base16.DecodeSucceeds` | srp/good.ts:68 | decoding succeeds if and only if the length is even and every octet is a hex digit of either case |
| `Base16.EncodeDecode` | srp/good.ts:62-68 | decodable digits re-encode to themselves if and only if they contain no upper-case digit |
| `Base16.EncodePrefix` | srp/good.ts:62 | the first 2k digits are the digits of the first k octets |
| `Base16.EncodeInjective` | srp/good.ts:62 | different octets never share digits |
| `Hexer.Encode` | srp/good.ts:60-64 | the token's characters are, one for one, the lower-case Base16 digits of the text's UTF-8 octets |
| `Hexer.Decode` | srp/good.ts:66-70 | every failure is a decode error; it succeeds exactly when the strict decoder does, and gives the strict decoder's text less a leading U+FEFF |
| `Hexer.DecodeStrict` | srp/good.ts:66-70 | the decoder without the byte-order-mark step: on success, the text's UTF-8 octets are exactly the octets the token's digits spell |
| `Hexer.EncodeOctets` | srp/good.ts:60-67 | the UTF-8 octets of a token are the Base16 digits of the text's octets |
| `Hexer.DecodeStrictEncode` | srp/good.ts:60-70 | with the strict decoder, every text is recovered from its token |
| `Hexer.DecodeEncode` | srp/good.ts:60-70 | `decode(encode(t))` is `t` less a leading U+FEFF, for every text; the same holds for `decodeText(encodeText(t))` at srp/bad.ts:20-30 |
| `Hexer.BomLost` | srp/good.ts:58-70 | `decode(encode("\u{FEFF}a"))` is `"a"` |
| `Hexer.EncodeInjective` | srp/good.ts:60-64 | different texts never share a token |
| `Hexer.DecodableOctets` | srp/good.ts:66-68 | a token whose octets hex-decode has even length, and all its characters are hex digits |
| `Hexer.DecodeRejectsMalformed` | srp/good.ts:66-70 | a token of odd length or with a non-hex character fails to decode |
| `Hexer.BomDigits` | srp/good.ts:62 | the hex digits of EF BB BF spell `efbbbf` |
| `Hexer.EncodeStartsWithBom` | srp/good.ts:60-64 | a text begins with U+FEFF if and only if its token begins with `efbbbf` |
| `Hexer.EncodeDecodeStrict` | srp/good.ts:60-70 | with the strict decoder, a decodable token is the encoding of its text if and only if it is spelt in lower case |
| `Hexer.EncodeDecode` | srp/good.ts:60-70 | a decodable token is the encoding of its decoded text if and only if it is spelt in lower case and does not begin with `efbbbf`; upper-case tokens decode but are never canonical |
| `Hexer.NonUtf8IsNoEncoding` | srp/good.ts:66-70 | digits that spell octets that are not UTF-8 are no text's token |
| `TokenFormat.IndexOf` | srp/good.ts:86 | the first colon's position (or the length): no separator before it, a separator at it |
| `TokenFormat.IndexOfFirst` | srp/good.ts:86 | that position is unique: any position with the same two properties is it |
| `TokenFormat.Split` | srp/good.ts:86 | `split(":")`: at least one field; the first field runs up to the first separator; there is a single field exactly when the text has no separator |
| `TokenFormat.SplitFieldsFree` | srp/good.ts:86 | no field of a split contains the separator |
| `TokenFormat.JoinSplit` | srp/good.ts:86 | the fields joined by the separator give back the text, so splitting loses nothing |
| `TokenFormat.CreateToken` | srp/good.ts:80-83 | the token decodes to `username:password` less a leading U+FEFF (strictly, to `username:password` itself), and is all lower-case hex; identical at srp/bad.ts:32-35 |
| `TokenFormat.ParseToken` | srp/good.ts:85-88 | the first field is the colon-free prefix up to the first colon; the second is absent exactly when there is no colon, and otherwise runs to the next colon or the end; identical at srp/bad.ts:37-40 |
| `TokenFormat.UsernameFromToken` | srp/good.ts:90-94 | succeeds exactly when the token decodes, and gives the decoded text up to its first colon (the whole text if there is none); identical at srp/bad.ts:42-46 |
| `TokenFormat.ParseCredentials` | srp/good.ts:80-88 | `parseToken` recovers both credentials when neither contains a colon |
| `TokenFormat.UsernameOfCreatedToken` | srp/good.ts:80-94 | when the username has no colon, the name read from the user's token is the username less a leading U+FEFF |
| `TokenFormat.TokenDeterminesUser` | srp/good.ts:80-83 | among colon-free usernames, equal tokens mean equal users |
| `TokenFormat.AmbiguousToken` | srp/good.ts:80-83 | with a colon in a username, two different users share a token |
| `Srp.InMemoryUserRepository.constructor` | srp/good.ts:25 | the store starts empty |
| `Srp.InMemoryUserRepository.Get` | srp/good.ts:27-31 | the stored user, or "user not found" exactly when the key is absent; reading changes nothing |
| `Srp.InMemoryUserRepository.GetAll` | srp/good.ts:33-40 | one entry per stored key, and as a multiset exactly the stored users |
| `Srp.InMemoryUserRepository.Save` | srp/good.ts:42-45 | returns the user; afterwards `get` of its name gives it, an earlier entry under that name is overwritten, every other key keeps its user |
| `Srp.InMemoryUserRepository.Remove` | srp/good.ts:47-52 | on an absent key, "user not found" and no change; otherwise returns the removed user, the key is gone, every other key keeps its user |
| `Srp.StoredUnderGrows` | srp/good.ts:36-37 | copying one more key adds exactly its user, never one already copied |
| `Srp.StoredUnderAll` | srp/good.ts:36 | all keys together hold all the stored users |
| `Srp.BasicAuthenticator.constructor` | srp/good.ts:75-78 | the authenticator keeps the repository it is given |
| `Srp.BasicAuthenticator.Authenticate` | srp/good.ts:96-102 | "user not found" for an absent name; otherwise it succeeds if and only if the stored username equals the supplied password, returning the stored user's token, else "invalid user or password" |
| `Srp.BasicAuthenticator.ValidateToken` | srp/good.ts:104-112 | a decode error if the token does not decode; "user not found" if the name before the first colon is not stored; otherwise that user if the token is exactly the user's token, else "invalid token" |
| `Srp.AuthenticateAcceptsOnlyUsername` | srp/good.ts:96-102 | the credential check as written: with every user filed under its own name, authentication succeeds if and only if the user exists and the password equals the username |
| `Srp.AuthenticateIgnoresPassword` | srp/good.ts:96-102 | changing the stored password does not change whether authentication succeeds |
| `Srp.DemoLoginRejected` | srp/good.ts:127-131 | after saving `User("billy", "secret")`, `authenticate("billy", "secret")` fails with "invalid user or password" |
| `Srp.ValidateTokenExactly` | srp/good.ts:104-112 | in a well-keyed store, a token validates to `u` if and only if `u` is stored under its name, the name has no colon and does not begin with U+FEFF, and the token is exactly `u`'s token |
| `Srp.AuthenticateThenValidate` | srp/good.ts:96-112 | a token returned by `authenticate` for a name with no colon and no leading U+FEFF validates to the stored user |
| `Srp.BomNameNeverValidates` | srp/good.ts:104-112 | in a well-keyed store, the token of a user whose name begins with U+FEFF never validates |
| `Srp.UpperCaseTokenRejected` | srp/good.ts:104-112 | a token with an upper-case hex digit never validates, even when it decodes |
| `NotSrp.Authentication.constructor` | srp/bad.ts:7 | the store starts empty |
| `NotSrp.Authentication.GetUser` | srp/bad.ts:11-13 | the stored user, or nothing exactly when the name is absent; reading changes nothing |
| `NotSrp.Authentication.RegisterUser` | srp/bad.ts:15-18 | returns the user; afterwards `getUser` of its name gives it and every other name keeps its user |
| `NotSrp.Authentication.Authenticate` | srp/bad.ts:48-54 | fails with "invalid user or password" if and only if the name is absent or the stored username differs from the password; otherwise returns the stored user's token |
| `NotSrp.Authentication.ValidateToken` | srp/bad.ts:56-64 | a decode error if the token does not decode; "invalid user" if the name before the first colon is not registered; otherwise that user if the token is exactly the user's token, else "invalid token" |
| `NotSrp.AuthenticateAcceptsOnlyUsername` | srp/bad.ts:48-54 | with every user filed under its own name, authentication succeeds if and only if the user exists and the password equals the username |
| `NotSrp.ValidateOwnToken` | srp/bad.ts:32-64 | a registered user's own token validates to that user when the name has no colon and does not begin with U+FEFF |
| `NotSrp.BomNameNeverValidates` | srp/bad.ts:42-64 | with every user filed under its own name, the token of a user whose name begins with U+FEFF never validates |
| `NotSrp.DemoLoginRejected` | srp/bad.ts:73-77 | after registering `User("billy", "secret")`, `authenticate("billy", "secret")` fails |
| `Equivalence.AuthenticateAgrees` | srp/bad.ts:48-54 | over the same users, `authenticate` in srp/good.ts:96-102 succeeds exactly when this one does and returns the same token; only a missing user's error differs |
| `Equivalence.ValidateTokenAgrees` | srp/bad.ts:56-64 | over the same users, `validateToken` in srp/good.ts:104-112 succeeds exactly when this one does and returns the same user; "user not found" there is "invalid user" here |

## Findings

| source | as written | input that shows it | evidently intended | confidence | as-written member | corrected member |
|---|---|---|---|---|---|---|
| srp/good.ts:58-70 | `Hexer` decodes with `new TextDecoder()`, whose default drops a leading U+FEFF, so `decode(encode(t))` is not `t` when `t` begins with U+FEFF; `encodeText`/`decodeText` at srp/bad.ts:9-30 do the same | `t = "\u{FEFF}a"` gives back `"a"`; a user named `"\u{FEFF}a"` is refused on their own token (`Srp.BomNameNeverValidates`) | `decode(encode(t)) == t` for every text, as the `Encoder` interface implies (a decoder built with `ignoreBOM: true`) | not executed; medium | `Hexer.BomLost` | `Hexer.DecodeStrictEncode` |

The authenticators are modelled with the decoder as written, so that their
lemmas describe the code. The corrected decoder is `Hexer.DecodeStrict`: it
inverts `Hexer.Encode` (`Hexer.DecodeStrictEncode`) and accepts exactly the
lower-case tokens (`Hexer.EncodeDecodeStrict`).

## Left out

- `Program.run` in both files (srp/good.ts:115-141, srp/bad.ts:67-87) is a demo driver that only prints. Its login step is stated by the two `DemoLoginRejected` lemmas.
- The `Repository`, `Encoder` and `Authenticator` interfaces (srp/good.ts:6-21) serve only dependency injection. `BasicAuthenticator` holds the concrete repository and always uses the `Hexer` encoding.
- common/user.ts is not part of this model. `User` is taken to be a record of two strings, and `Token` a string.
- `Hexer.Decode`: `TextDecoder` replaces octets that are not UTF-8 with U+FFFD, but the model reports a decode error instead. `Hexer.NonUtf8IsNoEncoding` shows that such a token can never equal any user's token. So validation fails either way; only the reported error can differ.
- Text is a sequence of Unicode scalar values. JavaScript strings are UTF-16 and may hold lone surrogates, which `TextEncoder` replaces with U+FFFD; those strings are not represented.
- The hex decoder's two error kinds ("invalid byte", "odd length") and the order in which it reports them are merged into one decode error.
- `Srp.InMemoryUserRepository.GetAll` says nothing about order, because JavaScript `Map` iteration order is not modelled.
- Object identity is not modelled. Users are values, so "returns the same object" is equality of values.
- Thrown `Error` objects become `AuthError` values in a `Result`; their messages are not modelled.
