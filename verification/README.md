# Authentication server core, modelled in Dafny

This project models two pieces of the authentication server:

- **The RSA key reader of the encryption service** (`RsaEncryptionService.ParseXmlString`). It takes a key document whose root element must be `RSAKeyValue`. It then walks the root's children in document order. Each child named `Modulus`, `Exponent`, `P`, `Q`, `DP`, `DQ`, `InverseQ` or `D` fills the matching slot of an RSA parameter record:
  - empty text leaves the slot null;
  - other text is decoded as base 64.

  Any other child is skipped. A wrong root name is an error. The root element and the `Modulus`/`Exponent` children are the `RSAKeyValue` element of section 4.4.2.2 of W3C XML Signature Syntax and Processing. `P` through `D` are the platform's private-key extension.
- **The user service** (`Login`, `AddUser`, `DeleteUser`), as far as its unit tests pin it down. The state is three repositories:
  - users;
  - salts keyed by user id;
  - key pairs keyed by user id.

  Password hashing, salt generation and token signing are collaborators. They enter as function values.

Files:

- `Wrappers.dfy`: the `Option` and `Result` types.
- `Bytes.dfy`: octets.
- `Base64.dfy`: base 64 per section 4 of RFC 4648 (the standard alphabet, with `=` padding). It contains:
  - a reference description of the texts that decode (`WellFormed`, `PadCount`, `DecodedLength`);
  - the decoder;
  - the canonical encoder;
  - the round trip between them.
- `RsaKeyXml.dfy`: the key document reader. It works on an already-parsed document, `Doc(rootName, children)`, where each child is a `Node(name, text)`. It also contains:
  - a reference definition of which child decides a slot (`LastNamed`);
  - the export layout of a key document, `KeyDocument`, with its read-back property.
- `UserService.dfy`: the service. Its operations are pure functions of the repository contents.
  - `AddUser` and a successful `DeleteUser` return the repository calls they make.
  - `Perform` gives the contents after those calls.
  - "called exactly once" is therefore a count over the returned calls.

## Model

| member | source | states |
|---|---|---|
| RsaKeyXml.ParseXmlString | CyberAuthenticationAPI/Service/Implementations/RsaEncryptionService.cs:26-46 | the result is the wrong-key-format error exactly when the root element is not named `RSAKeyValue` (case-sensitive); with the right root, any failure is a decoding error |
| RsaKeyXml.ParseSucceeds | CyberAuthenticationAPI/Service/Implementations/RsaEncryptionService.cs:26-41 | reading succeeds if and only if the root is `RSAKeyValue` and every child is either unrecognised or recognised with empty or valid base 64 text |
| RsaKeyXml.FieldNamed | CyberAuthenticationAPI/Service/Implementations/RsaEncryptionService.cs:30-39 | the switch recognises exactly the eight element names, each selecting its own field, and nothing else |
| RsaKeyXml.ReadChild | CyberAuthenticationAPI/Service/Implementations/RsaEncryptionService.cs:30-40 | a recognised child sets its own slot to the value of its text and leaves the other seven untouched; an unrecognised child leaves the record as it was; the step fails, with a decoding error, exactly when a recognised child's text is not base 64 |
| RsaKeyXml.DecodeText | CyberAuthenticationAPI/Service/Implementations/RsaEncryptionService.cs:32-39 | empty text, and only empty text, gives a null slot; non-empty text gives exactly its base 64 decoding, which is never zero octets; malformed text is a decoding error |
| RsaKeyXml.ReadChildren | CyberAuthenticationAPI/Service/Implementations/RsaEncryptionService.cs:28-41 | the loop over the children only ever fails with a decoding error |
| RsaKeyXml.ReadChildrenSlot | CyberAuthenticationAPI/Service/Implementations/RsaEncryptionService.cs:28-40 | after the loop, each slot holds the value of the last child naming it, or the slot's starting value when no child names it |
| RsaKeyXml.LastOccurrenceWins | CyberAuthenticationAPI/Service/Implementations/RsaEncryptionService.cs:28-40 | when a field's element occurs more than once, the last occurrence in document order determines the slot |
| RsaKeyXml.UnnamedFieldAbsent | CyberAuthenticationAPI/Service/Implementations/RsaEncryptionService.cs:21 | a field whose element never appears stays null, because the record starts with every slot null |
| RsaKeyXml.NoEmptySlot | CyberAuthenticationAPI/Service/Implementations/RsaEncryptionService.cs:32-39 | no slot of a successfully read record holds a zero-length octet sequence |
| RsaKeyXml.UnrecognisedChildIgnored | CyberAuthenticationAPI/Service/Implementations/RsaEncryptionService.cs:30-40 | removing a child that names no field, such as an unknown element, a text node or a comment, anywhere in the document does not change the result |
| RsaKeyXml.ReadChildrenAppend | CyberAuthenticationAPI/Service/Implementations/RsaEncryptionService.cs:28-41 | reading a concatenation of children is reading the first part, then the second from where the first left off; a failure in the first part stops the loop |
| RsaKeyXml.OrderIrrelevant | CyberAuthenticationAPI/Service/Implementations/RsaEncryptionService.cs:28-40 | when no two children name the same field, reordering the children does not change the result |
| RsaKeyXml.KeyDocumentRoundTrip | CyberAuthenticationAPI/Service/Implementations/RsaEncryptionService.cs:14-15 | for a record with no slot holding zero octets, a private-key document in the export layout reads back as the full record and a public-key document reads back as its modulus and exponent only; a zero-octet slot is exported as empty text and would read back as null |
| Base64.Decode | CyberAuthenticationAPI/Service/Implementations/RsaEncryptionService.cs:32-39 | base 64 decoding succeeds exactly on well-formed texts (length a multiple of four, alphabet characters, at most two closing pads) and then yields three octets per group minus one per pad; a length that is not a multiple of four is a length error |
| Base64.DecodeEncode | CyberAuthenticationAPI/Service/Implementations/RsaEncryptionService.cs:32-39 | decoding the canonical encoding of any octet sequence gives that sequence back |
| Base64.EncodeWellFormed | CyberAuthenticationAPI/Service/Implementations/RsaEncryptionService.cs:32-39 | every canonical encoding is a text the decoder accepts |
| Base64.DecodeNonEmpty | CyberAuthenticationAPI/Service/Implementations/RsaEncryptionService.cs:32-39 | a non-empty text never decodes to zero octets |
| Base64.PadBitsIgnored | CyberAuthenticationAPI/Service/Implementations/RsaEncryptionService.cs:32-39 | in a padded well-formed text, clearing the bits of the last alphabet character that fall beyond the final octet does not change the decoded octets ("QR==" decodes as "QQ==" does) |
| UserService.Login | CyberAuthenticationAPI/Tests/UserTests.cs:70-86 | for a user on record with a stored salt and key pair, the result is the token for that user and their private key when the password's hash under the stored salt equals the stored hash, and an authentication failure otherwise |
| UserService.AddUser | CyberAuthenticationAPI/Tests/UserTests.cs:88-94 | registration inserts exactly one user record with the given email and the hash from the salt-generating hash call, and inserts the salt produced by that same call |
| UserService.AddUserEffect | CyberAuthenticationAPI/Tests/UserTests.cs:88-94 | after registration the user table is the old one followed by one new record with the email and the salted hash, and the new salt is stored under its key |
| UserService.DeleteUser | CyberAuthenticationAPI/Tests/UserTests.cs:96-108 | with the right password, deletion removes the user record and the salt record for the id exactly once each; with a wrong password it is an authentication failure |
| UserService.DeleteUserEffect | CyberAuthenticationAPI/Tests/UserTests.cs:96-102 | after a successful deletion no user with the id remains, every other user is kept, the id's salt is gone and every other salt is kept |
| UserService.FindByEmail | CyberAuthenticationAPI/Tests/UserTests.cs:39-40 | looking a user up by email finds a stored user with that email, or reports none when no stored user has it |
| UserService.FindById | CyberAuthenticationAPI/Tests/UserTests.cs:66-67 | looking a user up by id finds a stored user with that id, or reports none when no stored user has it |
| UserService.RemoveUsers | CyberAuthenticationAPI/Tests/UserTests.cs:100 | deleting a user record keeps exactly the users with other ids |
| UserService.AddUserThenLogin | CyberAuthenticationAPI/Tests/UserTests.cs:48-58 | a freshly registered user logs in with the registration password and receives the token for that user and their private key, provided that: the salt is stored under the user's id (both generated identifiers are taken equal here); the hash service reproduces its own hash from the salt it generated; no earlier user holds the email; and a key pair for the id was already on record before registration, since the model's registration creates none |
| UserService.DeleteAppended | CyberAuthenticationAPI/Tests/UserTests.cs:96-102 | deleting the user last appended to the table, whose salt was added under their id and matches their password, succeeds and leaves the table and the salts as they were before the append, provided no earlier user or salt had the id |
| UserService.AddUserThenDeleteUser | CyberAuthenticationAPI/Tests/UserTests.cs:88-102 | deleting a freshly registered user with the registration password succeeds and restores the user table and the salts as they were, provided that: the salt is stored under the user's id (both generated identifiers are taken equal here); the hash service reproduces its own hash from the salt it generated; and no earlier user or salt has the id |

## Left out

- `GenerateKeyXml` (key generation through the platform's RSA provider) is nondeterministic and a foreign call. Only the layout of the documents it exports is modelled (`KeyDocument`): `Modulus` and `Exponent`, then `P`, `Q`, `DP`, `DQ`, `InverseQ` and `D` for a private key. The pair is returned as (public, private).
- XML text parsing (`XmlDocument.LoadXml`) is a library call. The model starts from the parsed root name and child list, and malformed XML is not modelled. Element names are compared exactly as given, prefixes included.
- Base64.Decode is strict. The platform decoder skips white space anywhere in the text; the model rejects it. So a text of white space only, which the platform decodes to a zero-length array, is a decoding error here.
- Base64.Decode ignores non-zero bits under the padding, as the platform decoder does (`PadBitsIgnored`). RFC 4648 section 3.5 allows decoders to reject such text.
- RsaKeyXml.NoEmptySlot holds for the strict decoder only. On the platform, text of white space only that survives XML parsing (in a CDATA section, or under `xml:space="preserve"`) is not empty, so it is decoded, and it decodes to a zero-length array. In the model that text is a decoding error, so no slot ever holds zero octets.
- The errors are modelled as values, not exceptions: `InvalidKeyFormat` for the wrong root, where the source throws a generic exception with a message, and `DecodeError` for malformed base 64, where the platform throws a format exception.
- Password hashing, salt generation, token signing, the token's expiry time and the encryption of the stored email are external crypto or clock code. Hashing and token signing are function values; `hashWithNewSalt` stands for a hash under a fresh salt and is deterministic for a given password. Email encryption and the expiry are not modelled: with the collaborators as the tests configure them, email encryption is the identity.
- The identifiers the service generates for the new user and salt records are parameters of `AddUser`. The model does not claim that they are equal.
- Key pair records: the model states nothing about their insertion on registration or their deletion on `DeleteUser`. The tests do not assert either.
- UserService.Login, UserService.DeleteUser: no contract states anything about an unknown email or id, or a missing salt or key pair, because the tests do not exercise these cases. The model returns `AuthenticationFailed` for an unknown email, so that a caller cannot tell an unknown user from a wrong password. It returns `NotFound` for an unknown id in `DeleteUser` and for a missing salt or key pair. Nothing is stated about the repositories after a failed deletion either.
- Async tasks and the mocking framework are plumbing. The operations are sequential pure functions.
- The body of the user service is not part of this model. Its behaviour is taken from what its tests assert. Its lookups are the first stored match, and the order of the checks in `Login` (user, salt, password, key pair) is a modelling choice.
