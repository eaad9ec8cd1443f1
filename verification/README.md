# A verified model of the Nostr sign-in

The repository lets people sign in to YunoHost with a Nostr key. This project models the two parts of it
that are hard to get right, in Dafny 4.11, and proves what they promise.

**The signer's arithmetic and codecs**, which the browser runs from two vendored bundles:
scalar multiplication by signed windows and its endomorphism split, modular inversion, the streaming
hash buffer and HMAC, radix conversion with base64 and bech32 on top, NIP-44 payloads, the QR code's
Reed-Solomon encoder and its shortest-path search, and the export and import of a secret key. Loops that
change variables are methods with loops, buffers are arrays, and each is proved equal to a definition that
does not mention the loop. Points are elements of any commutative group; the compression function, the key
stream, the key derivation and the authentication code are functions about which only lengths are known.

**The authentication protocol and its stores**, the repository's own Python: single-use challenges in
memory and in SQLite, any number of workers on one challenge database with crashes between any two steps,
the table of identities under every sequence of its transactions, login and linking as interleaved steps of
any number of requests, and the relay-list cache. The stores are classes; the protocols are state machines
whose properties hold after every sequence of steps.

Clock readings, nonces, the outcome of a fetch, the portal's answer, and parsing and checking a signature are
parameters throughout.

## How the files belong together

| files | what they model |
|---|---|
| Outcomes, Arithmetic, PowersOfTwo, PositionalNotation, ByteStrings | shared definitions and facts about products, powers, digits and bytes |
| CommutativeGroup, WindowedMultiplication, ScalarSplit, Endomorphism, ModularInverse | scalar multiplication and inversion |
| HashStream, Bitwise, Hmac | the hash buffer and HMAC |
| Radix, Alphabet, Base64, Bech32Checksum, Bech32, Hex, PasskeySecret | codecs and the forms of a secret key |
| Nip44Padding, Nip44 | encrypted payloads |
| GaloisField, Polynomials, ReedSolomon | error correction |
| PriorityQueue, Walks, PredecessorTree, DijkstraSearch, ShortestPath | the shortest-path search |
| ChallengeStore, ChallengeWorkers | single-use challenges, alone and under concurrency |
| Mappings, MappingStore | the table of identities: transactions, and the class with its lookups |
| EventVerify, AuthProtocol, AuthGuarantees, Endpoints | signed events, the interleaved protocol, what its runs guarantee, and single calls |
| RelayLookup | the relay-list cache |

`dafny verify dfyconfig.toml` checks everything.

## Where the code promises less than one might think

Each of these is proved: an input for which a promise fails, and the exact condition under which it holds.

- The secret-key parser accepts an nsec of any length, the one of the empty key included
  (`PasskeySecret.EmptyKeyAccepted`). The key has 32 bytes exactly when the text has 63 characters
  (`PasskeySecret.KeyLength`).
- The path returned by the shortest-path search loses its start when a vertex on it has the empty name
  (`ShortestPath.EmptyNameCutsPath`), and only then (`ShortestPath.CompleteIffNoEmptyName`). The QR encoder has
  no such vertex.
- Removing the NIP-44 padding counts the padding bytes but does not look at them
  (`Nip44Padding.OtherPaddingAccepted`); padding again gives the same bytes exactly when they are zero
  (`Nip44Padding.PadOfUnpad`).
- With digits of 16 bits, decoding the radix encoding of a byte gives two (`Radix.WideDigitsDoNot`). It gives the
  bytes back exactly when less than a byte of padding was added, as it is for widths up to 8 (`Radix.RoundTrips`).
- The two challenge stores can be told apart when the clock is set back (`ChallengeStore.ClockSetBackShows`) and
  when a nonce is issued again in time (`ChallengeStore.NonceRefused`), and exactly then
  (`ChallengeStore.StoresAgree`, `ChallengeStore.AgreeWhileClockRunsOn`, `ChallengeStore.AgreeOnFreshNonces`).
- When two programs open the store at once on a table not yet migrated, a key deleted in between comes back
  (`Mappings.DeletedKeyComesBack`). The later of the two changes nothing exactly when every key of the old table is
  taken (`Mappings.OpenAfterStaleCheck`), as it is while nobody's rows are deleted (`Mappings.NothingDeletedSince`);
  openings that begin after the first has committed never change anything (`Mappings.ReopeningChangesNothing`).
- The identity reported after adding one may be another, dated later (`MappingStore.LaterRowReported`); it is the
  one added exactly when no enabled identity of the account is dated later (`MappingStore.Store.AddAndReport`).
- A login's cookie may be set for another host than its session is for (`AuthGuarantees.CookieForOtherHost`); the two
  agree exactly when the login request names the Host of the request that asked for the challenge
  (`AuthGuarantees.CookieHostFits`).
- When the consume reads an earlier time than the issue, the event may lie further ahead than time to live and skew,
  however little the clock was set back (`AuthGuarantees.EventFromFuture`); when it does not, never
  (`AuthGuarantees.EventIsRecent`).

## Model

| member | source | states |
|---|---|---|
| `WindowedMultiplication.RecodeSplits` | src/yunohost_nostr_auth/web/static/nostr-connect-vendor.js:8 | `qr`: digit and rest make up the scalar, the digit is at most half a window in size, and its offset names an entry of its own window |
| `WindowedMultiplication.OffsetsInRange` | src/yunohost_nostr_auth/web/static/nostr-connect-vendor.js:8 | no table index, the decoy index `offsetF` included, is out of range |
| `WindowedMultiplication.InRangeScalarFits` | src/yunohost_nostr_auth/web/static/nostr-connect-vendor.js:8 | for every width from 1 to the scalar length, a scalar of that length passes the leftover check `Mr` |
| `WindowedMultiplication.UnsafeLadder` | src/yunohost_nostr_auth/web/static/nostr-connect-vendor.js:8 | `_unsafeLadder` returns acc + n*P in any commutative group |
| `WindowedMultiplication.PrecomputeWindow` | src/yunohost_nostr_auth/web/static/nostr-connect-vendor.js:8 | `precomputeWindow` fills the table with j * 2^(w*W) * P for every window and digit; throws exactly for a width out of range |
| `WindowedMultiplication.WNAF` | src/yunohost_nostr_auth/web/static/nostr-connect-vendor.js:8 | `wNAF` returns n*P, and throws exactly for a scalar past the order or past what the windows hold |
| `WindowedMultiplication.WNAFUnsafe` | src/yunohost_nostr_auth/web/static/nostr-connect-vendor.js:8 | the early-exit `wNAFUnsafe` returns acc + n*P under the same condition |
| `CommutativeGroup.TimesAdd` | src/yunohost_nostr_auth/web/static/nostr-connect-vendor.js:8 | the multiple of a sum is the sum of the multiples, for all integers: what `_unsafeLadder`, `wNAF` and `multiply` are measured against |
| `CommutativeGroup.TimesTimes` | src/yunohost_nostr_auth/web/static/nostr-connect-vendor.js:8 | a multiple of a multiple is the multiple by the product |
| `ScalarSplit.SplitCongruent` | src/yunohost_nostr_auth/web/static/nostr-connect-vendor.js:8 | `hi`: k1 + root*k2 leaves k modulo the order, for every scalar and every basis of the root |
| `ScalarSplit.SplitBounded` | src/yunohost_nostr_auth/web/static/nostr-connect-vendor.js:8 | `hi`: with determinant n each half is at most half the size of its column of the basis |
| `ScalarSplit.SplitScalar` | src/yunohost_nostr_auth/web/static/nostr-connect-vendor.js:8 | `hi` returns signs and magnitudes of the two halves, and throws exactly when a magnitude is not below 2^(half the bit length) |
| `ScalarSplit.SplitNeverFails` | src/yunohost_nostr_auth/web/static/nostr-connect-vendor.js:8 | "splitScalar failed" is unreachable: both magnitudes are below 2^128 for every integer scalar |
| `ScalarSplit.Secp256k1BasisFits` | src/yunohost_nostr_auth/web/static/nostr-connect-vendor.js:8 | the basis `yi` has the order as its determinant, belongs to the cube root of unity, and has short columns |
| `ScalarSplit.CountBits` | src/yunohost_nostr_auth/web/static/nostr-connect-vendor.js:8 | `on` counts the bits of a number |
| `ScalarSplit.BitLengthBounds` | src/yunohost_nostr_auth/web/static/nostr-connect-vendor.js:8 | a number has at most b bits exactly when it is below 2^b |
| `ScalarSplit.SplitForCurve` | src/yunohost_nostr_auth/web/static/nostr-connect-vendor.js:8 | with a fitting basis the split always succeeds, congruent and within 128 bits |
| `Endomorphism.EndomorphismOfMultiple` | src/yunohost_nostr_auth/web/static/nostr-connect-vendor.js:8 | the endomorphism multiplies every multiple of the point by the root |
| `Endomorphism.HalvesJoin` | src/yunohost_nostr_auth/web/static/nostr-connect-vendor.js:8 | the two signed half-length products add up to k*P |
| `Endomorphism.Multiply` | src/yunohost_nostr_auth/web/static/nostr-connect-vendor.js:8 | `multiply` over the half-length windows returns k*P for every k from 1 to order-1, and throws exactly otherwise or for a bad width |
| `Endomorphism.DoubleLadder` | src/yunohost_nostr_auth/web/static/nostr-connect-vendor.js:8 | `$r` returns both products at once |
| `Endomorphism.MultiplyUnsafe` | src/yunohost_nostr_auth/web/static/nostr-connect-vendor.js:8 | `multiplyUnsafe` returns k*P for every k from 0 to order-1, and throws exactly otherwise |
| `ModularInverse.Invert` | src/yunohost_nostr_auth/web/static/nostr-connect-vendor.js:8 | `Cr` terminates and returns the inverse in [0, m); throws exactly for 0, for m < 1, and when t and m have a common divisor |
| `ModularInverse.CoprimeImpliesInverse` | src/yunohost_nostr_auth/web/static/nostr-connect-vendor.js:8 | a number coprime to the modulus has an inverse |
| `ModularInverse.InverseImpliesCoprime` | src/yunohost_nostr_auth/web/static/nostr-connect-vendor.js:8 | and only such a number has one |
| `ModularInverse.InverseUnique` | src/yunohost_nostr_auth/web/static/nostr-connect-vendor.js:8 | an inverse in [0, m) is unique |
| `ModularInverse.InvertBatch` | src/yunohost_nostr_auth/web/static/nostr-connect-vendor.js:8 | `xt`, two passes and one inversion: every non-zero entry gets its own inverse, zero entries stay unfilled; throws exactly when some non-zero entry has none |
| `ModularInverse.PrefixProducts` | src/yunohost_nostr_auth/web/static/nostr-connect-vendor.js:8 | the first pass of `xt`: the products in front of each entry |
| `ModularInverse.FieldBatchNeverThrows` | src/yunohost_nostr_auth/web/static/nostr-connect-vendor.js:8 | over a field `xt` never throws |
| `HashStream.Stream.Update` | src/yunohost_nostr_auth/web/static/nostr-connect-vendor.js:8 | `update` of `bt` appends to the message, however it is cut, and refuses after the digest |
| `HashStream.Stream.DigestInto` | src/yunohost_nostr_auth/web/static/nostr-connect-vendor.js:8 | `digestInto` writes the words of the one-shot hash of the padded message (sections 5.1.1 and 6.2.2 of FIPS 180-4) and nothing behind them, into any output, the buffer of the stream included, with every throwing case |
| `HashStream.Stream.TakeDigest` | src/yunohost_nostr_auth/web/static/nostr-connect-vendor.js:8 | `digest` returns those bytes, written over the buffer and copied, and erases state and buffer |
| `HashStream.Stream.EndState` | src/yunohost_nostr_auth/web/static/nostr-connect-vendor.js:8 | up to that point it ends in the state of compressing exactly the blocks of the padded message |
| `HashStream.OutputTellsWords` | src/yunohost_nostr_auth/web/static/nostr-connect-vendor.js:8 | different states write different outputs |
| `HashStream.OutputIsWritten` | src/yunohost_nostr_auth/web/static/nostr-connect-vendor.js:8 | four bytes of the output are one word of the state, in the byte order of the hash |
| `HashStream.PaddingBlocks` | src/yunohost_nostr_auth/web/static/nostr-connect-vendor.js:8 | padding in the buffer, spilling into one more block or not, compresses the blocks of the one-shot padding |
| `HashStream.PaddingIs` | src/yunohost_nostr_auth/web/static/nostr-connect-vendor.js:8 | byte by byte, the padding of section 5.1.1 of FIPS 180-4: the message, 0x80, zeros, and in the last eight bytes the number of bits modulo 2^64 in the byte order of the hash, as short as possible |
| `HashStream.PaddingLength` | src/yunohost_nostr_auth/web/static/nostr-connect-vendor.js:8 | the padded message is a whole number of blocks long |
| `HashStream.ZeroCountLeast` | src/yunohost_nostr_auth/web/static/nostr-connect-vendor.js:8 | the padding uses the least number of zero bytes that completes a block |
| `HashStream.AbsorbConcat` | src/yunohost_nostr_auth/web/static/nostr-connect-vendor.js:8 | compressing whole blocks in two goes is compressing them in one |
| `Hmac.Mac.Update` | src/yunohost_nostr_auth/web/static/nostr-connect-vendor.js:8 | `update` of `At` appends to the text under the inner pad |
| `Hmac.Mac.DigestInto` | src/yunohost_nostr_auth/web/static/nostr-connect-vendor.js:8 | `digestInto` of `At` writes the bytes of H(K xor opad, H(K xor ipad, text)) of section 2 of RFC 2104, using the output for the inner hash, and erases both streams; throws exactly after a digest and for an output of another length |
| `Hmac.Mac.TakeDigest` | src/yunohost_nostr_auth/web/static/nostr-connect-vendor.js:8 | `digest` of `At` returns those bytes |
| `Hmac.BlockKeyIs` | src/yunohost_nostr_auth/web/static/nostr-connect-vendor.js:8 | a key of up to one block is used as it is, a longer one as its hash, filled up with zeros |
| `Hmac.XorAllTwice` | src/yunohost_nostr_auth/web/static/nostr-connect-vendor.js:8 | one pass with 0x6a turns the inner pad in the buffer into the outer one |
| `Bitwise.XorIsBitwise` | src/yunohost_nostr_auth/web/static/nostr-connect-vendor.js:8 | exclusive or of bytes, bit by bit |
| `Hmac.DigestOfPieces` | src/yunohost_nostr_auth/web/static/nostr-connect-vendor.js:8 | the bytes of a digest depend on the concatenation of the pieces only |
| `Radix.Convert` | src/yunohost_nostr_auth/web/static/nostr-connect-vendor.js:8 | `_n` equals regrouping by positional value, with every throwing case, under signed 32-bit operators |
| `Radix.CarryFits` | src/yunohost_nostr_auth/web/static/nostr-connect-vendor.js:8 | pending bits and the next digit never exceed the reckoned carry, so "carry overflow" never fires in the loop |
| `Radix.UsedCodecs` | src/yunohost_nostr_auth/web/static/nostr-connect-vendor.js:8 | between 8 and 5 or 6 bits the carry has 12 bits at most |
| `Radix.Int32Bits` | src/yunohost_nostr_auth/web/static/nostr-connect-vendor.js:8 | a sign bit never shows in the bits taken out of the carry |
| `Radix.ShiftInIsExact` | src/yunohost_nostr_auth/web/static/nostr-connect-vendor.js:8 | shifting a digit into the carry loses nothing |
| `Radix.LeftoverIsSeen` | src/yunohost_nostr_auth/web/static/nostr-connect-vendor.js:8 | the test `o > 0` sees every leftover bit, although it is a signed comparison |
| `Radix.EncodeValue` | src/yunohost_nostr_auth/web/static/nostr-connect-vendor.js:8 | encoding of `_o`: length and value of the digits, for every width |
| `Radix.DecodeOfEncode` | src/yunohost_nostr_auth/web/static/nostr-connect-vendor.js:8 | decoding gives back the bytes, followed by the zero bytes that fit into the padding |
| `Radix.RoundTrips` | src/yunohost_nostr_auth/web/static/nostr-connect-vendor.js:8 | decoding undoes encoding exactly when less than a byte of padding was added, so always for widths up to 8 |
| `Radix.WideDigitsDoNot` | src/yunohost_nostr_auth/web/static/nostr-connect-vendor.js:8 | with digits of 16 bits one byte comes back as two |
| `Radix.AcceptedIsEncoding` | src/yunohost_nostr_auth/web/static/nostr-connect-vendor.js:8 | whatever the unpadded decoding accepts is the encoding of what it returns, for every width |
| `PositionalNotation.ValOfDigits` | src/yunohost_nostr_auth/web/static/nostr-connect-vendor.js:8 | a number that fits is the value of its digits |
| `PositionalNotation.DigitsOfVal` | src/yunohost_nostr_auth/web/static/nostr-connect-vendor.js:8 | digits in range are the digits of their value |
| `Alphabet.ReadIffWritten` | src/yunohost_nostr_auth/web/static/nostr-connect-vendor.js:8 | `Co`: text is read as certain digits exactly when those digits are written as the text |
| `Base64.PlaceOfLetter` | src/yunohost_nostr_auth/web/static/nostr-connect-vendor.js:8 | the letters of base64 stand at the places of RFC 4648 |
| `Base64.AddPadding` | src/yunohost_nostr_auth/web/static/nostr-connect-vendor.js:8 | encoding of `$i(6)` fills up to a multiple of four |
| `Base64.StripPadding` | src/yunohost_nostr_auth/web/static/nostr-connect-vendor.js:8 | decoding of `$i(6)` accepts exactly the filled-up texts and returns the part in front |
| `Base64.Encode` | src/yunohost_nostr_auth/web/static/nostr-connect-vendor.js:8 | the fallback of `On` never throws on bytes |
| `Base64.Decode` | src/yunohost_nostr_auth/web/static/nostr-connect-vendor.js:8 | the fallback of `On` accepts exactly the texts that encoding produces, and returns the bytes they came from |
| `Base64.TextInjective` | src/yunohost_nostr_auth/web/static/nostr-connect-vendor.js:8 | different bytes have different texts |
| `Base64.TextLength` | src/yunohost_nostr_auth/web/static/nostr-connect-vendor.js:8 | n bytes have 4*ceil(n/3) characters |
| `Bech32Checksum.NextState` | src/yunohost_nostr_auth/web/static/nostr-connect-vendor.js:8 | `ct` is the step of the checksum |
| `Bech32Checksum.StepMultiplies` | src/yunohost_nostr_auth/web/static/nostr-connect-vendor.js:8 | `ct` multiplies by x modulo the generator x^6+29x^5+22x^4+20x^3+21x^2+29x+18 of BIP-173, over the field of 32 elements |
| `Bech32Checksum.GeneratorsDouble` | src/yunohost_nostr_auth/web/static/nostr-connect-vendor.js:8 | the five constants are that generator and its doubles in the field |
| `Bech32Checksum.TappedLinear` | src/yunohost_nostr_auth/web/static/nostr-connect-vendor.js:8 | `ct` is linear for exclusive or |
| `Bech32Checksum.StepInjective` | src/yunohost_nostr_auth/web/static/nostr-connect-vendor.js:8 | `ct` is injective on states of 30 bits |
| `Bech32Checksum.OneChangeShows` | src/yunohost_nostr_auth/web/static/nostr-connect-vendor.js:8 | one changed word, wherever it stands in a list of any length, changes the final state |
| `Bech32Checksum.WriteState` | src/yunohost_nostr_auth/web/static/nostr-connect-vendor.js:8 | the last line of `Ao` writes a state as six digits |
| `Bech32Checksum.StateDigitsInjective` | src/yunohost_nostr_auth/web/static/nostr-connect-vendor.js:8 | different states have different checksums |
| `Bech32Checksum.Checksum` | src/yunohost_nostr_auth/web/static/nostr-connect-vendor.js:8 | `Ao` is the checksum of BIP-173 over the expanded prefix and the data; throws exactly for a bad prefix character |
| `Bech32.PlaceOfLetter` | src/yunohost_nostr_auth/web/static/nostr-connect-vendor.js:8 | the letters of bech32 stand at the places of BIP-173 |
| `Bech32.KnownText` | src/yunohost_nostr_auth/web/static/nostr-connect-vendor.js:8 | "a12uel5l", the shortest valid text of BIP-173, is what `encode` writes for the prefix "a", and is read |
| `Bech32.EncodeThenDecode` | src/yunohost_nostr_auth/web/static/nostr-connect-vendor.js:8 | what `encode` of `Wi` writes, `decode` reads back |
| `Bech32.DecodeThenEncode` | src/yunohost_nostr_auth/web/static/nostr-connect-vendor.js:8 | what `decode` accepts is, apart from its case, what `encode` writes for the result |
| `Bech32.PartsAccepted` | src/yunohost_nostr_auth/web/static/nostr-connect-vendor.js:8 | data is accepted exactly when it is the written words followed by their checksum |
| `Bech32.OneWrongLetter` | src/yunohost_nostr_auth/web/static/nostr-connect-vendor.js:8 | accepted data differing in one letter from accepted data does not exist |
| `Bech32.SubstitutionRejected` | src/yunohost_nostr_auth/web/static/nostr-connect-vendor.js:8 | one wrong character behind the separator, in a text of any length, is always rejected (BIP-173, "Checksum"), in the letter case of JavaScript |
| `Nip44Padding.PaddedSizeFits` | src/yunohost_nostr_auth/web/static/nostr-connect-vendor.js:8 | `Ho` is at least n and a multiple of 32 |
| `Nip44Padding.PaddedSizeMonotone` | src/yunohost_nostr_auth/web/static/nostr-connect-vendor.js:8 | `Ho` is monotone |
| `Nip44Padding.PaddedSizeIdempotent` | src/yunohost_nostr_auth/web/static/nostr-connect-vendor.js:8 | `Ho` is idempotent |
| `Nip44Padding.PaddingIsCheap` | src/yunohost_nostr_auth/web/static/nostr-connect-vendor.js:8 | `Ho` adds less than (n-1)/4 bytes above 256 |
| `Nip44Padding.SmallSizes` | src/yunohost_nostr_auth/web/static/nostr-connect-vendor.js:8 | up to 256 bytes `Ho` is the next multiple of 32 |
| `Nip44Padding.LargeSizes` | src/yunohost_nostr_auth/web/static/nostr-connect-vendor.js:8 | between 2^k and 2^(k+1), from 256 on, it is the next multiple of 2^(k-2) |
| `Nip44Padding.PaddingLayout` | src/yunohost_nostr_auth/web/static/nostr-connect-vendor.js:8 | what `nc` writes, byte by byte: the length in two bytes or in six, the text, zeros |
| `Nip44Padding.UnpadOfPad` | src/yunohost_nostr_auth/web/static/nostr-connect-vendor.js:8 | `rc` undoes `nc` for every text of 1 to 2^32-1 bytes, over both forms of the length |
| `Nip44Padding.UnpadAccepts` | src/yunohost_nostr_auth/web/static/nostr-connect-vendor.js:8 | `rc` accepts exactly the padded forms of the text it returns |
| `Nip44Padding.PadOfUnpad` | src/yunohost_nostr_auth/web/static/nostr-connect-vendor.js:8 | `nc` gives the accepted bytes back exactly when those behind the text are zero: `rc` does not look at them |
| `Nip44Padding.OtherPaddingAccepted` | src/yunohost_nostr_auth/web/static/nostr-connect-vendor.js:8 | a padded text with one padding byte that is not zero is accepted |
| `Nip44.Encrypt` | src/yunohost_nostr_auth/web/static/nostr-connect-vendor.js:8 | `sc` throws exactly for a bad size or nonce, and its payload carries the text |
| `Nip44.PayloadLayout` | src/yunohost_nostr_auth/web/static/nostr-connect-vendor.js:8 | the bytes of a payload: version 2, nonce, text under the key stream, and the code of nonce and ciphertext, each under its own derived key |
| `Nip44.Dismantle` | src/yunohost_nostr_auth/web/static/nostr-connect-vendor.js:8 | `oc` takes apart exactly the payloads with room for a padded text |
| `Nip44.Decrypt` | src/yunohost_nostr_auth/web/static/nostr-connect-vendor.js:8 | `Uo` returns the text of every payload that carries one under the key, and accepts no other; with `Encrypt`, decrypting undoes encrypting |
| `Nip44.PayloadShape` | src/yunohost_nostr_auth/web/static/nostr-connect-vendor.js:8 | the minimum of 99 bytes and 132 characters and the "#" test reject no payload |
| `Nip44.OneMeaning` | src/yunohost_nostr_auth/web/static/nostr-connect-vendor.js:8 | a payload carries one text only |
| `GaloisField.BuildTables` | src/yunohost_nostr_auth/web/static/nostr-connect-vendor.js:1 | `os` builds the powers of 2 over two periods, and their logarithms |
| `GaloisField.TableMul` | src/yunohost_nostr_auth/web/static/nostr-connect-vendor.js:1 | `mul` by table lookup is the product in the field |
| `GaloisField.OrderOfTwo` | src/yunohost_nostr_auth/web/static/nostr-connect-vendor.js:1 | the powers of 2 repeat after 255 and no sooner |
| `GaloisField.EveryNonZeroIsPower` | src/yunohost_nostr_auth/web/static/nostr-connect-vendor.js:1 | every non-zero byte is a power of 2 |
| `GaloisField.MulIsShiftAndAdd` | src/yunohost_nostr_auth/web/static/nostr-connect-vendor.js:1 | the product by logarithms is shift-and-add multiplication modulo the polynomial 285 |
| `GaloisField.MulAssociates` | src/yunohost_nostr_auth/web/static/nostr-connect-vendor.js:1 | the product is associative |
| `GaloisField.MulDistributes` | src/yunohost_nostr_auth/web/static/nostr-connect-vendor.js:1 | and distributes over exclusive or |
| `ReedSolomon.FieldIsRing` | src/yunohost_nostr_auth/web/static/nostr-connect-vendor.js:1 | bytes with exclusive or and `mul` obey the laws polynomial division needs |
| `ReedSolomon.Multiply` | src/yunohost_nostr_auth/web/static/nostr-connect-vendor.js:1 | `mul` of `ss` is the product of polynomials |
| `ReedSolomon.Modulo` | src/yunohost_nostr_auth/web/static/nostr-connect-vendor.js:1 | `mod` of `ss` terminates and leaves the remainder of long division, without its leading zeros |
| `ReedSolomon.GenerateECPolynomial` | src/yunohost_nostr_auth/web/static/nostr-connect-vendor.js:1 | the generator is the product of the factors x + 2^r |
| `ReedSolomon.Encode` | src/yunohost_nostr_auth/web/static/nostr-connect-vendor.js:1 | `as`: exactly d bytes, with which the data is a multiple of the generator (section 7.5 of ISO/IEC 18004:2015); throws exactly for d = 0 |
| `ReedSolomon.SyndromesVanish` | src/yunohost_nostr_auth/web/static/nostr-connect-vendor.js:1 | every syndrome of such a codeword is zero |
| `ReedSolomon.CorrectionBytesUnique` | src/yunohost_nostr_auth/web/static/nostr-connect-vendor.js:1 | no other bytes complete the data |
| `Polynomials.Division` | src/yunohost_nostr_auth/web/static/nostr-connect-vendor.js:1 | the dividend is a quotient times the divisor plus the remainder |
| `Polynomials.RemainderCompletes` | src/yunohost_nostr_auth/web/static/nostr-connect-vendor.js:1 | replacing the cleared tail by the remainder makes a multiple of the divisor |
| `Polynomials.EvalProduct` | src/yunohost_nostr_auth/web/static/nostr-connect-vendor.js:1 | the value of a product is the product of the values |
| `PriorityQueue.Queue.Push` | src/yunohost_nostr_auth/web/static/nostr-connect-vendor.js:3 | `push`: sorting the whole list again only puts the new entry behind those that cost no more |
| `PriorityQueue.Queue.Pop` | src/yunohost_nostr_auth/web/static/nostr-connect-vendor.js:3 | `pop` returns an entry of least cost |
| `PriorityQueue.InsertPlaces` | src/yunohost_nostr_auth/web/static/nostr-connect-vendor.js:3 | the place of a pushed entry: behind all that cost no more, in front of all that cost more |
| `PriorityQueue.PushInserts` | src/yunohost_nostr_auth/web/static/nostr-connect-vendor.js:3 | the stable sort of a sorted list with one more entry is an insertion |
| `DijkstraSearch.PopStep` | src/yunohost_nostr_auth/web/static/nostr-connect-vendor.js:3 | a popped entry is the true distance of a new vertex, or a stale one of a vertex already processed |
| `DijkstraSearch.ScanImproves` | src/yunohost_nostr_auth/web/static/nostr-connect-vendor.js:3 | only the first processing of a vertex can improve anything, and an improvement keeps the invariant of the search |
| `DijkstraSearch.PopShrinks` | src/yunohost_nostr_auth/web/static/nostr-connect-vendor.js:3 | the search ends although stale entries stay in the queue |
| `PredecessorTree.NoWalkIsShorter` | src/yunohost_nostr_auth/web/static/nostr-connect-vendor.js:3 | no walk beats the distances found, and every vertex a walk reaches was found |
| `PredecessorTree.ChainIsShortest` | src/yunohost_nostr_auth/web/static/nostr-connect-vendor.js:3 | the predecessors have no cycle and lead along a walk of least cost back to the source |
| `DijkstraSearch.SingleSource` | src/yunohost_nostr_auth/web/static/nostr-connect-vendor.js:3 | `single_source_shortest_paths` throws exactly when a target is given that cannot be reached |
| `ShortestPath.Extract` | src/yunohost_nostr_auth/web/static/nostr-connect-vendor.js:3 | `extract_shortest_path_from_predecessor_list` returns the chain behind its last vertex with an empty name |
| `ShortestPath.CompleteIffNoEmptyName` | src/yunohost_nostr_auth/web/static/nostr-connect-vendor.js:3 | so the chain is complete exactly when no vertex on it has the empty name |
| `ShortestPath.FindPath` | src/yunohost_nostr_auth/web/static/nostr-connect-vendor.js:3 | `find_path` throws exactly for an unreachable target, and without empty names returns a shortest path |
| `ShortestPath.EmptyNameCutsPath` | src/yunohost_nostr_auth/web/static/nostr-connect-vendor.js:3 | a graph where the empty name cuts off the start of the path |
| `Hex.FromHex` | src/yunohost_nostr_auth/web/static/nostr-passkey-vendor.js:1 | `Fe` accepts exactly texts of an even number of hexadecimal digits and returns the bytes the pairs stand for |
| `Hex.DigitsWritten` | src/yunohost_nostr_auth/web/static/nostr-passkey-vendor.js:1 | `Ln` writes every byte as its high digit and its low one, in lower case |
| `Hex.ReadsBack` | src/yunohost_nostr_auth/web/static/nostr-passkey-vendor.js:1 | reading the digits `Ln` wrote gives the bytes back |
| `PasskeySecret.ParseSecret` | src/yunohost_nostr_auth/web/static/nostr-passkey-vendor.js:1 | `Zs` accepts, within 256 characters after trimming, exactly 64 hexadecimal digits or an nsec |
| `PasskeySecret.NsecFits` | src/yunohost_nostr_auth/web/static/nostr-passkey-vendor.js:1 | `Hr`, within the limit of 5000 characters, has a form for every key of up to 3118 bytes |
| `PasskeySecret.NsecAccepted` | src/yunohost_nostr_auth/web/static/nostr-passkey-vendor.js:1 | `Nr` reads a text as a key exactly when it is, apart from its case, the nsec `Hr` prints for the key |
| `PasskeySecret.NsecRecovers` | src/yunohost_nostr_auth/web/static/nostr-passkey-vendor.js:1 | every key of 32 bytes survives the nsec form, whose 63 characters are never taken for hexadecimal digits (NIP-19) |
| `PasskeySecret.HexRecovers` | src/yunohost_nostr_auth/web/static/nostr-passkey-vendor.js:1 | every key of 32 bytes survives the hexadecimal form |
| `PasskeySecret.KeyLength` | src/yunohost_nostr_auth/web/static/nostr-passkey-vendor.js:1 | the key read from an nsec has 32 bytes exactly when the text has 63 characters: `Zs` does not check the length |
| `PasskeySecret.EmptyKeyAccepted` | src/yunohost_nostr_auth/web/static/nostr-passkey-vendor.js:1 | "nsec1jlrw3c", the nsec of the empty key, passes every check of `Zs` |
| `PasskeySecret.MistypedNsec` | src/yunohost_nostr_auth/web/static/nostr-passkey-vendor.js:1 | an nsec with any one character mistyped as any other, a separator or white space included, is refused |
| `ChallengeStore.MemoryStore.Issue` | src/yunohost_nostr_auth/auth/challenge.py:88-92 | the store in memory adds the challenge |
| `ChallengeStore.MemoryStore.Consume` | src/yunohost_nostr_auth/auth/challenge.py:116-124 | and takes it out whether or not it has expired |
| `ChallengeStore.SqliteStore.Issue` | src/yunohost_nostr_auth/auth/challenge.py:94-114 | prunes what has expired and inserts; a nonce that still has a row makes the transaction fail without a trace |
| `ChallengeStore.SqliteStore.Consume` | src/yunohost_nostr_auth/auth/challenge.py:126-158 | marks the row, and returns it if it has not expired |
| `ChallengeStore.HeldAt` | src/yunohost_nostr_auth/auth/challenge.py:88-158 | what the stores hold after any calls: the challenge issued last for a nonce, in memory until it is asked for, in the database until it is pruned |
| `ChallengeStore.ConsumeReturns` | src/yunohost_nostr_auth/auth/challenge.py:116-158 | a consume returns the nonce, domain, action and times of its last issue, exactly if nobody asked before and the time is not past its expiry, and in the database if it was not pruned |
| `ChallengeStore.StoresAgree` | src/yunohost_nostr_auth/auth/challenge.py:88-158 | for all calls, nonces and clocks: the two stores give the same answers exactly when no nonce is issued again that still has a row, and none is asked for in time that was pruned |
| `ChallengeStore.AgreeWhileClockRunsOn` | src/yunohost_nostr_auth/auth/challenge.py:88-158 | while the clock runs on: exactly when no nonce is issued twice within the life of its challenge |
| `ChallengeStore.AgreeOnFreshNonces` | src/yunohost_nostr_auth/auth/challenge.py:88-158 | with fresh nonces: exactly when no challenge is asked for in time after a later clock was read for pruning |
| `ChallengeStore.NobodyCanTell` | src/yunohost_nostr_auth/auth/challenge.py:88-158 | with both, always, over reopenings too |
| `ChallengeStore.ClockSetBackShows` | src/yunohost_nostr_auth/auth/challenge.py:100 | a run on a clock set back that tells the stores apart |
| `ChallengeStore.NonceRefused` | src/yunohost_nostr_auth/auth/challenge.py:94-114 | a run with a nonce issued twice that tells them apart |
| `ChallengeWorkers.StepKeeps` | src/yunohost_nostr_auth/auth/challenge.py:94-158 | every step of every worker, crashes included, keeps the invariant of the interleaved transactions |
| `ChallengeWorkers.Serializable` | src/yunohost_nostr_auth/auth/challenge.py:94-158 | the table is what the committed transactions make of it one after another, and every answer is the one its transaction gives then |
| `ChallengeWorkers.IssueCompletes` | src/yunohost_nostr_auth/auth/challenge.py:94-114 | an issue that nobody interrupts goes through, or leaves no trace where its nonce has a row |
| `ChallengeWorkers.ConsumeCompletes` | src/yunohost_nostr_auth/auth/challenge.py:126-158 | a consume that nobody interrupts returns what the row says and uses it up |
| `ChallengeWorkers.ReturnedInTime` | src/yunohost_nostr_auth/auth/challenge.py:116-158 | a returned challenge was issued for the nonce, and the clock read was not past its expiry |
| `ChallengeWorkers.SingleUse` | src/yunohost_nostr_auth/auth/challenge.py:126-146 | between two answers that return a challenge for one nonce, the nonce was issued again |
| `ChallengeWorkers.AtMostOnce` | src/yunohost_nostr_auth/auth/challenge.py:126-146 | when no nonce is issued twice, none is returned twice, over every interleaving |
| `ChallengeWorkers.OriginsDiffer` | src/yunohost_nostr_auth/auth/challenge.py:126-146 | different successful consumes used up different issued challenges, even when nonces repeat |
| `ChallengeWorkers.RowIsLatest` | src/yunohost_nostr_auth/auth/challenge.py:94-114 | a row holds the challenge that was issued last for its nonce |
| `Mappings.TransactionKeeps` | src/yunohost_nostr_auth/identity/mappings.py:43-205 | every transaction keeps one row per key and ids below the highest handed out |
| `Mappings.Reachable` | src/yunohost_nostr_auth/identity/mappings.py:40-52 | so does every sequence of them |
| `Mappings.IdsAreNotReused` | src/yunohost_nostr_auth/identity/mappings.py:42 | an identity id that is gone never comes back |
| `Mappings.RevokedStaysRevoked` | src/yunohost_nostr_auth/identity/mappings.py:175-205 | a revoked identity is never enabled again, nor changed |
| `Mappings.ReopeningChangesNothing` | src/yunohost_nostr_auth/identity/mappings.py:72-96 | once an opening has committed, every opening that begins changes nothing, whatever the old table holds and whatever others do between its check of the version and its transaction |
| `Mappings.OpeningCommits` | src/yunohost_nostr_auth/identity/mappings.py:79-96 | an opening that has committed leaves the version that later ones find, whatever it had read |
| `Mappings.OpenAfterStaleCheck` | src/yunohost_nostr_auth/identity/mappings.py:79-96 | openings that overlap: one that had read the old version changes nothing after another has migrated exactly when every key of the old table is taken |
| `Mappings.NothingDeletedSince` | src/yunohost_nostr_auth/identity/mappings.py:79-96 | as they are while nobody's rows were deleted since the other copied the same old table |
| `Mappings.DeletedKeyComesBack` | src/yunohost_nostr_auth/identity/mappings.py:79-96 | a run where they are not: a deleted key comes back, and enabled |
| `Mappings.OwnerKept` | src/yunohost_nostr_auth/identity/mappings.py:98-173 | only the deletion of a user's rows takes a key from the user |
| `Mappings.HandsOver` | src/yunohost_nostr_auth/identity/mappings.py:98-173 | a key passes from one user to another only after `unlink` or `link` deleted the rows of the first |
| `Mappings.LinkAfterStaleCheck` | src/yunohost_nostr_auth/identity/mappings.py:111-130 | `link` whose check passed on an earlier table, with any transactions of others in between: it fails, changing nothing, exactly when another user owns the key by then, which takes one of those transactions to have brought the key in |
| `Mappings.AddAfterStaleCheck` | src/yunohost_nostr_auth/identity/mappings.py:143-161 | `add_identity`, likewise: nothing changes exactly when the key was brought in meanwhile, else the row is added |
| `Mappings.EnabledBefore` | src/yunohost_nostr_auth/identity/mappings.py:98-187 | a key is enabled only if it was before, or if a transaction since brought it in |
| `Mappings.NoRowFromFuture` | src/yunohost_nostr_auth/identity/mappings.py:98-168 | on a clock that is never set back no row is ever dated in the future |
| `MappingStore.Store.constructor` | src/yunohost_nostr_auth/identity/mappings.py:57-96 | opening copies the old table, row by row as stated by `Migrated`, exactly when the version it read, which may be outdated, says that was not done |
| `Mappings.CopyMigrates` | src/yunohost_nostr_auth/identity/mappings.py:85-94 | the migration copies name, key, date, date of use and whether enabled of every old row whose key is not taken, with the defaults of the schema, and changes no other row |
| `Mappings.MigrationEnablesNone` | src/yunohost_nostr_auth/identity/mappings.py:85-94 | a key that was disabled in the old table is not enabled by it |
| `MappingStore.Store.Link` | src/yunohost_nostr_auth/identity/mappings.py:98-130 | replaces all identities of the user by one with the members given, and leaves all others; throws, changing nothing, exactly when another user owns the key |
| `MappingStore.Store.AddIdentity` | src/yunohost_nostr_auth/identity/mappings.py:132-168 | adds one row with the members given; throws, changing nothing, exactly when the key is taken |
| `MappingStore.Store.Unlink` | src/yunohost_nostr_auth/identity/mappings.py:170-173 | deletes the rows of the user and no others |
| `MappingStore.Store.RevokeIdentity` | src/yunohost_nostr_auth/identity/mappings.py:175-187 | disables the row exactly when it is the user's and enabled |
| `MappingStore.Store.UpdateCaption` | src/yunohost_nostr_auth/identity/mappings.py:189-205 | changes the label of an active row of the user and nothing else |
| `MappingStore.Store.TouchIdentity` | src/yunohost_nostr_auth/identity/mappings.py:258-264 | sets the date of use of the identity, if it is enabled, and nothing else |
| `MappingStore.Store.TouchLastUsed` | src/yunohost_nostr_auth/identity/mappings.py:250-256 | the same for all enabled rows of a user |
| `MappingStore.Store.GetByPubkey` | src/yunohost_nostr_auth/identity/mappings.py:214-219 | the enabled row with the key, if there is one |
| `MappingStore.Store.GetByUsername` | src/yunohost_nostr_auth/identity/mappings.py:221-237 | the first row in the order enabled, date, id |
| `MappingStore.Store.ListByUsername` | src/yunohost_nostr_auth/identity/mappings.py:239-248 | exactly the rows of the user, with the disabled ones if asked for, newest first |
| `MappingStore.Store.NostrJson` | src/yunohost_nostr_auth/server.py:575-599 | the NIP-05 answer exists exactly for names with an enabled identity, and its key belongs to that name only, so that looking the key up gives the name back |
| `MappingStore.Store.AddAndReport` | src/yunohost_nostr_auth/server.py:492-529 | `/identities/link` reports the identity just added exactly when no enabled one of the account is dated later |
| `MappingStore.FirstHeadsListing` | src/yunohost_nostr_auth/identity/mappings.py:221-248 | `get_by_username` is enabled exactly when the account has an enabled identity, and then heads the listing of those |
| `MappingStore.ListingUnique` | src/yunohost_nostr_auth/identity/mappings.py:239-248 | the order determines the listing |
| `MappingStore.NewestIsAdded` | src/yunohost_nostr_auth/server.py:527-529 | the added identity comes first exactly when none is dated later |
| `MappingStore.AddedIsReported` | src/yunohost_nostr_auth/server.py:527-529 | so adds one after the other, on a clock that is never set back, are each reported |
| `MappingStore.LaterRowReported` | src/yunohost_nostr_auth/server.py:527-529 | a table where an identity dated later is reported instead of the one added |
| `EventVerify.FirstTagCounts` | src/yunohost_nostr_auth/auth/nostr_verify.py:47-52 | the value of a tag is that of the first tag with the name |
| `EventVerify.FirstRawTagCounts` | src/yunohost_nostr_auth/auth/nostr_verify.py:55-72 | likewise for the event as it came in, with whatever is in its tags |
| `EventVerify.AcceptedIffAttested` | src/yunohost_nostr_auth/auth/nostr_verify.py:75-115 | a response is accepted, with the signer's key, exactly when it parses as a signed event of kind 22242 whose first tags name the challenge, its domain and its action, and which is in time |
| `AuthProtocol.StepKeeps` | src/yunohost_nostr_auth/server.py:97-168 | every step of every request keeps the invariant of the protocol |
| `AuthGuarantees.EffectIsProven` | src/yunohost_nostr_auth/auth/login.py:33-59 | every session and every linked identity has used up an issued challenge of its own action and rests on an event signed for it, with the settings allowing it; a session is for the challenge's domain, and a link has written the signer's key for its user |
| `AuthGuarantees.SessionTraced` | src/yunohost_nostr_auth/server.py:123-168 | the steps behind a session, all of one request: the consume that returned its challenge, and after it the lookup, in whose table the signer's identity was enabled and belonged to the session's user |
| `AuthGuarantees.RevokedKeyNeedsLinking` | src/yunohost_nostr_auth/auth/login.py:49-51 | a key disabled or deleted before the consume leads to a session only if a transaction linked it again before the lookup |
| `AuthGuarantees.LoginSucceeds` | src/yunohost_nostr_auth/server.py:123-168 | from any world on, a login of an enabled key that presents a good event goes through, unless minting fails or somebody interferes |
| `AuthGuarantees.LinksAreVouched` | src/yunohost_nostr_auth/identity/linking.py:59-64 | the steps behind a linked identity, all of one request: the consume that returned its challenge, and after it the verification for which the portal named the user |
| `AuthGuarantees.LinkSucceeds` | src/yunohost_nostr_auth/server.py:193-230 | from any world on, a link that presents a good event and a portal session goes through where the key may be linked, and the user then owns the key |
| `AuthGuarantees.EffectsHaveOwnChallenges` | src/yunohost_nostr_auth/server.py:133-143 | no two sessions or links have used up the same issued challenge |
| `AuthGuarantees.WritesAreCovered` | src/yunohost_nostr_auth/identity/linking.py:31-87 | a login's write changes the date of use of identities and nothing else in the table; links write the key that signed for a link challenge |
| `AuthGuarantees.ChallengeTraced` | src/yunohost_nostr_auth/server.py:97-121 | the request that asked for the challenge of a session or link came before the consume |
| `AuthGuarantees.CookieHostFits` | src/yunohost_nostr_auth/server.py:97-168 | the cookie is for the session's host exactly when the session's own login request names the Host of the request that asked for its challenge |
| `AuthGuarantees.CookieForOtherHost` | src/yunohost_nostr_auth/server.py:155-166 | for every other Host, a run where it does not |
| `AuthGuarantees.EventIsRecent` | src/yunohost_nostr_auth/config.py:72-84 | an event is no older at its consume than time to live plus skew, 420 seconds at most, and no further ahead if the consume did not read an earlier time than the issue |
| `AuthGuarantees.EventIsRecentInOrder` | src/yunohost_nostr_auth/config.py:72-84 | so over every run whose clock readings are in order the two lie no further apart |
| `AuthGuarantees.EventFromFuture` | src/yunohost_nostr_auth/config.py:72-84 | for all valid settings that allow logins and every consume that reads an earlier time than the issue, a run whose event is further ahead than that |
| `Endpoints.Authenticate` | src/yunohost_nostr_auth/auth/login.py:19-59 | the checks in order: a session exactly when all pass and minting works; when minting fails the use is noted all the same, and in every other case the store is unchanged |
| `Endpoints.SignerAttests` | src/yunohost_nostr_auth/auth/login.py:31-47 | the key the checks let through is that of whoever attests to the challenge, if it was issued for the action |
| `Endpoints.LookupOfClaimed` | src/yunohost_nostr_auth/server.py:133-135 | what is consumed is the row of the nonce in the first challenge tag of the event as it came in, if that is a string and not empty |
| `Endpoints.ConsumeClaimed` | src/yunohost_nostr_auth/server.py:133-135 | the claimed nonce is used up by the lookup |
| `Endpoints.AuthenticateEndpoint` | src/yunohost_nostr_auth/server.py:123-168 | the challenge is used up before anything is checked, so no event serves a second call; the outcome is that of the challenge it returned |
| `Endpoints.ConfirmAndLink` | src/yunohost_nostr_auth/identity/linking.py:31-114 | writes exactly when session, challenge, signature and ownership are in order |
| `Endpoints.LinkEndpoint` | src/yunohost_nostr_auth/server.py:193-230 | goes through exactly with permission, a cookie, a portal session, an unused link challenge, an event that attests to it, and a key that may be linked; ends in the signer's key owned by that user; without a cookie nothing is consumed |
| `Endpoints.ConfirmAndUnlink` | src/yunohost_nostr_auth/identity/linking.py:117-139 | the portal session alone suffices |
| `RelayLookup.RelayCache.Store` | src/yunohost_nostr_auth/identity/relay_cache.py:71-83 | inserts or overwrites |
| `RelayLookup.RelayCache.Resolve` | src/yunohost_nostr_auth/ynh/relay_lookup_server.py:43-72 | the reply, member by member: the known list and its time, or none; the network is asked exactly when there is no list or it is as old as the time to live |
| `RelayLookup.StoresAreSpaced` | src/yunohost_nostr_auth/ynh/relay_lookup_server.py:56-72 | with a clock that does not run backwards, the stores of one key are at least the time to live apart |
| `RelayLookup.StoresTakeTime` | src/yunohost_nostr_auth/ynh/relay_lookup_server.py:56-72 | so k of them take at least k-1 times that |
| `RelayLookup.HoldsLastFetched` | src/yunohost_nostr_auth/identity/relay_cache.py:62-83 | after any lookups the cache holds for every key what was fetched for it last |
| `RelayLookup.AnswersLastFetch` | src/yunohost_nostr_auth/ynh/relay_lookup_server.py:43-72 | a linked key is answered with the list fetched for it last and its time, or with nothing; an unlinked one with nothing, always |

## Left out

- WindowedMultiplication.WNAF: says nothing about the second point returned, the decoy sum, because nothing reads it.
- WindowedMultiplication.PrecomputeWindow: the table of a point is computed, not fetched from the cache of precomputed tables; widths whose powers of two exceed the precision of a double are not told apart.
- ReedSolomon.SyndromesVanish: holds for the first 512 roots, since beyond the table of 512 powers the source reads 0; QR codes need far fewer.
- HashStream.Stream.DigestInto: messages of 2^53 bytes and more, whose length is no exact number in JavaScript, are not modelled.
- HashStream.Stream.TakeDigest: a stream is erased only after its digest was taken; `destroy` before that is not modelled, nor is it for a MAC.
- Radix.Convert: takes digits that are natural numbers, as bytes and alphabet indices are; a negative word passes the source's range test.
- Bech32.EncodeThenDecode: letter case is that of ASCII and of the Kelvin sign, which JavaScript turns into k. Lowering any other character leaves one outside ASCII, and the text is refused either way.
- Nip44.Encrypt: works on the bytes of the text; UTF-8 encoding and decoding are not modelled, and the logarithm is the integer one.
- PasskeySecret.ParseSecret: of NIP-19 only the nsec is read; the kinds with nested records, which the parser refuses afterwards, count as refused at once.
- ShortestPath.FindPath: vertex names are taken from plain JavaScript objects, so names like "constructor" that every object inherits are not modelled; the loop over a vertex's edges is a method of its own.
- DijkstraSearch.SingleSource: costs are real numbers that are not negative; infinite costs and rounding are left out.
- ChallengeStore.MemoryStore.Issue: the clock and the nonce are arguments, and a time to live that is not positive, for which the source's constructor raises, is a precondition of the constructor.
- ChallengeWorkers.StepKeeps: a lock timeout is a crash of the worker without its transaction; reading during another worker's write is not modelled, since both transactions start by taking the write lock.
- Mappings.ReopeningChangesNothing: the old table is a list of complete rows in any order; rows with missing columns, which the migration skips, are left out.
- MappingStore.Store.AddAndReport: nobody else writes between its insert and its lookup.
- MappingStore.Store.ListByUsername: sorts as the query asks; how SQLite executes it is not modelled.
- AuthProtocol.StepKeeps: the outcome of the ownership check in front of a link is left open, since it reads an earlier table; the settings do not change during a run; a login request without a Host header, whose cookie is set for the domain ".None", is not told apart from one that names it; a claimed nonce that is no string finds no challenge, where SQLite may also raise an error.
- Endpoints.AuthenticateEndpoint: one call at a time, which AuthProtocol takes apart into interleaved steps; HTTP parsing, cookies, logging and status codes are left out.
- RelayLookup.RelayCache.Resolve: one lookup at a time; the JSON text of the stored list, the socket and its access control are left out.
- The curve's formulas, Schnorr and ECDSA, ChaCha20, AES, the compression functions and JWT signing are parameters or absent.
- HKDF, the NIP-46 session, the relay pool, WebAuthn and the pages are not part of this model.
- QR segmentation, versions, masks and drawing are not part of this model.
- The remaining lookups of the mapping store, the admin endpoints and the identity lookup service would add only easy members.
