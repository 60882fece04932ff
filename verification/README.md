# Verified model of the colibri-stateless core

This project models, in Dafny, the arithmetic and the state machines that
colibri-stateless rests on, and proves what they are for.

* **Modular arithmetic** (`Limbs`, `Bignum`, `Product`, `Inverse`, `Bytes`, `Format`):
  256-bit numbers as nine 29-bit limbs. Carry loops, multiplication with interleaved
  reduction, the constant-flow modular inverse, division and decimal output.
* **The curve and ECDSA** (`Field`, `Affine`, `Curve`, `Recode`, `Scalar`, `PublicKey`,
  `Ecdsa`): Jacobian formulas, signed-digit scalar multiplication in both directions,
  key encodings, signing, verification and key recovery, up to the round trip of the three.
* **Encoders and key derivation** (`Radix`, `Base58`, `Sha2`, `HmacDrbg`, `Bip32`,
  `Bip32Cache`, `Bip32Tree`): Base58 both ways, streaming hashes, the HMAC generator, child
  keys and their cache. `Rfc6979` joins the generator with signing.
* **The prover's two-level cache** (`ProverCache`, `CacheRuns`, `CacheBorrows`): the code as
  classes, and every interleaving of its calls as runs.
* **The memcached client** (`MemcacheReply`, `Memcache`, `MemcacheRuns`, `MemcacheLinks`,
  `MemcacheOrder`, `MemcacheServer`): the pool, the queue, the reply parser, every order of
  callbacks, and the client together with a server.

`Arith`, `Radix`, `Tallies` and `Wrappers` hold what the others share.

## How it is modelled

* A `bignum256` is an object with one field, the nine limbs. Machine words are subset
  types, so every addition and multiplication of words carries a proof that it does not
  overflow; where the source wraps on purpose the model wraps explicitly.
* `Val` is the number limbs denote. Points of the curve layer are affine points or
  infinity; `Tracks` ties Jacobian coordinates to a multiple of the generator.
* Primality of p and n, Fermat's theorem for p, the chord-and-tangent group law of a
  cyclic group of order n (`CyclicGroup`), cofactor one and the contents of the table of
  precomputed points are hypotheses, gathered in `ValidCurve`, `RootCurve`, `Setting` and
  `PowerTable`.
* Random numbers, clocks, nonces, MACs, the compression function, write results and
  everything libuv delivers are parameters; results hold for all of them.
* Masks and conditional moves are conditional assignments.

## Where the code differs from its comments or its purpose

* `bn_fast_mod` is documented for inputs with only the top limb unnormalized
  (libs/crypto/bignum.c:714), but `bn_mult_k` and `bn_addmod` call it with nine unnormalized
  limbs. `FastMod` is proved for arbitrary 32-bit limbs. The inequality in its comment at
  lines 733-742 does not hold as written; a direct bound does.
* `bn_cnegate` at x = p: the code reduces first, so the results are 2p and p.
* `bn_sqrt` asserts that the top limb is 3 modulo 4 where the lowest limb is meant; the
  model asks for both.
* `point_jacobian_double`: a comment names 8 y^4 where the code uses y^4.
* `bn_long_division` allows d <= 61304 in its comment and d < 61304 in its assertion.
* `bn_lshift` is used by the inverse after it has finished, beyond its documented range;
  its contract here is modulo 2^261.
* `hmac_drbg_reseed` skips the second round when the entropy alone is empty, even if
  additional input is given. Equality with RFC 6979 is therefore stated for non-empty
  entropy; `EmptyEntropy` and `EmptyEntropyDiffers` say what happens without.
* Freeing a context gives a borrow back to the live entry of its key and skips invalidated
  ones. If a free brings in an entry of a key while another context holds a borrowed copy
  of an invalidated one, the new entry's counter is wrong when it returns. The counters are
  right exactly in runs without such a free (`FreeCounted`, `CountedIffTidy`), nothing
  dangles up to the first one and on its return (`NothingDangles`), and after it something
  can (`UntidyDangles`, `StaleRunDangles`). A run that never invalidates a borrowed key has
  none (`CarefulIsTidy`), and neither has a context that replaces what only itself has
  borrowed (`OwnCopiesTidy`).
* `mc_get_connection` hands out the first idle connection, connected or not. Requests are
  on connected connections as long as connections connect in the order of their indices
  (`RequestsAreConnected`); the first one out of order can break that (`OutOfOrder`,
  `SecondFirst`).
* A connect callback adds a credit and leaves the queue alone, so a new operation can
  overtake queued ones (`DrainedIff`, `OvertakesIff`, `SecondOvertakes`).
* A queued set copies its value as a string (`CopyExact`).
* The reply parser adds an announced length to its offsets modulo 2^64, so a reply that
  announces -2 bytes is taken for a complete one (`BeyondExact`, `NegativeLength`).
* Any read of a set's reply, even of a part of it, frees the connection, so the rest of it
  is taken for the reply to the next get (`PartOfSet`, `ReplyOfAnother`). Requests and
  replies stay matched exactly in runs in which no connection is used again after such a
  part (`NextMatched`, `MatchedIff`); then every get is called back with its own reply
  (`RunMatched`, `OwnReply`).

## Model

| member | source | states |
|---|---|---|
| Bignum.IsZero | libs/crypto/bignum.c:233-239 | true exactly for the value 0, by a loop over the nine limbs |
| Bignum.IsOne | libs/crypto/bignum.c:243-249 | true exactly for the value 1 |
| Bignum.IsEqual | libs/crypto/bignum.c:265-271 | true exactly when the two values are equal: normalized limbs determine the value |
| Bignum.IsLess | libs/crypto/bignum.c:253-261 | true exactly when the value of x is below that of y: the running comparison over limbs is the comparison of numbers |
| Bignum.Add | libs/crypto/bignum.c:1379-1403 | the carry loop adds the values exactly, with no 32-bit overflow, whenever the sum is below 2^261 |
| Bignum.Subtract | libs/crypto/bignum.c:1558-1597 | the borrow loop gives x - y, or x - y + 2^261 when x < y, always normalized |
| Bignum.SubtractMod | libs/crypto/bignum.c:1505-1551 | exactly x + 2p - y for a partly reduced y, with no underflow in the loop |
| Bignum.Subi | libs/crypto/bignum.c:1468-1497 | exactly x + p - y for a small y, although the first limb's difference may wrap in 32 bits |
| Bignum.Addi | libs/crypto/bignum.c:1427-1458 | exactly x + y for a small y |
| Bignum.Mod | libs/crypto/bignum.c:519-527 | full reduction of a partly reduced number: below p, and the input or the input minus p |
| Bignum.Cnegate | libs/crypto/bignum.c:298-372 | 2p - x or p + x for the reduced x, normalized; congruent to -x or x |
| Bignum.Lshift | libs/crypto/bignum.c:377-383 | 2x modulo 2^261; the inverse loop calls it beyond its documented range |
| Bignum.Rshift | libs/crypto/bignum.c:390-396 | x / 2 rounded down |
| Bignum.MultHalf | libs/crypto/bignum.c:444-495 | x / 2 or (x + p) / 2, whichever is an integer; twice the result is congruent to x |
| Bignum.FastMod | libs/crypto/bignum.c:717-806 | for nine arbitrary 32-bit limbs: normalized, congruent to the input and below 2p, with no accumulator underflow |
| Bignum.FastReducedRange | libs/crypto/bignum.c:717-806 | the value FastMod computes lies in [0, 2p) and is congruent to the input, for nine arbitrary 32-bit limbs |
| Bignum.FastReducedNorm | libs/crypto/bignum.c:717-806 | for normalized limbs FastMod subtracts p exactly x / 2^256 times |
| Bignum.MultipleReducesToP | libs/crypto/bignum.c:717-806 | a number strictly between 0 and 4p reduces to exactly p if and only if it is a multiple of p, for p below 2^256 |
| Bignum.MultK | libs/crypto/bignum.c:501-512 | k x modulo p, partly reduced, although it hands FastMod nine unnormalized limbs |
| Bignum.AddMod | libs/crypto/bignum.c:1409-1420 | x + y modulo p, partly reduced, through the same unnormalized call |
| Product.ColumnsProduct | libs/crypto/bignum.c:533-577 | the column sums of schoolbook multiplication spell exactly the product of the values |
| Product.MultiplyLong | libs/crypto/bignum.c:533-577 | the eighteen limbs are normalized and spell k x exactly; the 64-bit accumulator never overflows |
| Product.ReduceWindow | libs/crypto/bignum.c:584-673 | subtracting coef p inside nine limbs and clearing the limb above is exact; the shifted accumulator never underflows |
| Product.ReduceStep | libs/crypto/bignum.c:584-673 | one step at place d keeps the number congruent and brings it below 2p 2^(29 d) |
| Product.MultiplyReduce | libs/crypto/bignum.c:680-698 | eight steps and a last one bring any number below 2^519 to a congruent one below 2p |
| Product.Multiply | libs/crypto/bignum.c:704-711 | for k x < 2^519 and 2^256 - 2^224 <= p <= 2^256: normalized, below 2p, congruent to k x |
| Product.PowerMod | libs/crypto/bignum.c:815-850 | square and multiply over the limbs of e gives x^e modulo p, partly reduced |
| Inverse.InverseModPowerTwo | libs/crypto/bignum.c:885-906 | the Newton iteration gives the inverse of every odd a modulo 2^n, for every n from 1 to 32; it is below 2^n if and only if n > 1 or a = 1, and for n = 1 it is 2 - a modulo 2^32 |
| Inverse.DivideBase | libs/crypto/bignum.c:914-974 | x / 2^29 modulo p, staying below p or below 2p when x is |
| Inverse.LiveRound | libs/crypto/bignum.c:1104-1208 | every live round keeps u s + v r = p, x s = v 2^k and x r = -u 2^k modulo p, u and v coprime, and u v 2^k <= p x |
| Inverse.LiveBound | libs/crypto/bignum.c:1104-1208 | a state still live after k rounds has k < 512, so v reaches 1 within the fixed 522 passes |
| Inverse.LiveEnds | libs/crypto/bignum.c:1104-1208 | when v is 1, s is an almost inverse: x s = 2^k modulo p with 0 < s < p, which later passes keep |
| Inverse.Pass | libs/crypto/bignum.c:1104-1208 | one pass with its masks and conditional moves is one round while live and leaves s alone once finished, while u, v and r may be scrambled |
| Inverse.AlmostInverse | libs/crypto/bignum.c:1104-1208 | after the 522 passes x s = 2^k modulo p with k counted exactly and 0 < s < p |
| Inverse.DividePow2 | libs/crypto/bignum.c:1104-1208 | the division phases divide out exactly 2^k |
| Inverse.InverseFast | libs/crypto/bignum.c:1104-1208 | for every odd p in range: x coprime to p gives the y in [0, p) with x y = 1 modulo p, and x = 0 modulo p gives 0 |
| Bytes.ReadBe | libs/crypto/bignum.c:85-98 | 32 big-endian bytes become normalized limbs of the same value |
| Bytes.WriteBe | libs/crypto/bignum.c:103-114 | the bytes written spell the value; with ReadBe and BeInjective a round trip both ways |
| Bytes.BeInjective | libs/crypto/bignum.c:85-114 | byte strings of equal length with equal value are equal |
| Format.LongDivision | libs/crypto/bignum.c:1602-1653 | q d + r = x with r < d and q normalized, also when q is x; no 32-bit overflow for d < 61304 |
| Format.DivMod10 | libs/crypto/bignum.c:1670-1670 | the last decimal digit, and the number without it |
| Format.UpwardGroups | libs/crypto/bignum.c:1783-1808 | writing digits from the last one with a separator after every third gives the text grouped in threes from the right |
| Format.StripIs | libs/crypto/bignum.c:1746-1777 | skipping zeros from the last digit on gives what stripping zeros and the point from the right of the text gives |
| Format.FormattedParts | libs/crypto/bignum.c:1732-1808 | the pieces the code writes, for every exponent and number of decimals, join to the prototype's text |
| Format.PutFraction | libs/crypto/bignum.c:1744-1781 | writes exactly the fraction, with or without its last zeros, and leaves the integer part |
| Format.PutInteger | libs/crypto/bignum.c:1783-1808 | writes exactly the integer part with its separators |
| Format.FormatAmount | libs/crypto/bignum.c:1678-1819 | the output is the text of the Python prototype and its length, exactly when text and terminator fit; otherwise 0 and a cleared buffer |
| Affine.AddFormulaCorrect | libs/crypto/ecdsa.c:218-335 | the formulas of point_jacobian_add give Jacobian coordinates of the chord-and-tangent sum, for two finite points: equal, opposite or neither |
| Affine.DoubleFormulaCorrect | libs/crypto/ecdsa.c:337-403 | the formulas of point_jacobian_double give Jacobian coordinates of the tangent double |
| Curve.DoublingTest | libs/crypto/ecdsa.c:272-285 | the comparison with p after bn_fast_mod fires exactly when x1 z2^2 and x2 are congruent |
| Curve.PointJacobianAdd | libs/crypto/ecdsa.c:218-335 | computes the addition formulas; every product is below 2^519 and every sum below 2^261 where the bignum routine needs it; the result is partly reduced |
| Curve.PointJacobianDouble | libs/crypto/ecdsa.c:337-403 | computes the doubling formulas with all bignum preconditions met |
| Curve.PointDouble | libs/crypto/ecdsa.c:91-133 | the tangent double of an affine point, including infinity and y = 0 |
| Curve.PointAdd | libs/crypto/ecdsa.c:44-88 | the chord-and-tangent sum of two affine points, including infinity, equal and opposite points |
| Curve.IsInfinity | libs/crypto/ecdsa.c:143-145 | recognises the representation of infinity |
| Curve.CurveToJacobian | libs/crypto/ecdsa.c:184-198 | Jacobian coordinates of the same point for every random z |
| Curve.JacobianToCurve | libs/crypto/ecdsa.c:200-216 | the reduced affine point of Jacobian coordinates; z = 0 gives infinity |
| Recode.DigitRange | libs/crypto/ecdsa.c:476-487 | every signed digit is odd and at most 15 in size |
| Recode.HighForm | libs/crypto/ecdsa.c:450-459 | the value of the digits from place i up, in closed form |
| Recode.DigitsSum | libs/crypto/ecdsa.c:450-459 | the 64 signed digits with weights 16^i sum to exactly a - 2^256 |
| Recode.LowHigh | libs/crypto/ecdsa.c:588-619 | low digits and high digits split the same sum, so both directions of reading agree |
| Recode.HighRange | libs/crypto/ecdsa.c:450-459 | partial sums from the top are odd and bounded, so they are not 0 modulo the order |
| Recode.LowRange | libs/crypto/ecdsa.c:588-619 | partial sums from the bottom stay below 16^i in size |
| Recode.LowOdd | libs/crypto/ecdsa.c:588-619 | and they are odd, so never 0 |
| Recode.MakeOdd | libs/crypto/ecdsa.c:428-450 | a = 2^256 + k, minus the order when k is even: odd and below 2^257 |
| Scalar.NextBits | libs/crypto/ecdsa.c:499-512 | the five bits taken across limb borders are the window at place i |
| Scalar.BuildTable | libs/crypto/ecdsa.c:461-472 | the table holds P, 3P, ..., 15P |
| Scalar.HighNonZero | libs/crypto/ecdsa.c:476-525 | no partial scalar of the loop is 0 modulo the order |
| Scalar.LowNonZero | libs/crypto/ecdsa.c:588-619 | no partial scalar of the table version is 0 modulo the order |
| Scalar.DigitLoop | libs/crypto/ecdsa.c:476-525 | doubling four times, negating and adding ends at (a - 2^256) P up to the tracked sign |
| Scalar.PointMultiply | libs/crypto/ecdsa.c:407-531 | k P for every k below the order, with the code's return value (1 also for k = 0); untouched result otherwise |
| Scalar.LowLoop | libs/crypto/ecdsa.c:588-619 | adding table entries from the low end ends at the same multiple up to sign |
| Scalar.ScalarMultiply | libs/crypto/ecdsa.c:538-625 | k G for every k below the order, given the table's contents |
| PublicKey.FSqrt | libs/crypto/bignum.c:861-879 | x^((p + 1) / 4) modulo p, fully reduced |
| PublicKey.RootCorrect | libs/crypto/bignum.c:861-879 | if x has a square root modulo p, that power is the root or its negative |
| PublicKey.UncompressCoords | libs/crypto/ecdsa.c:939-950 | a root candidate of the curve equation with the requested parity |
| PublicKey.UncompressFinds | libs/crypto/ecdsa.c:939-950 | the candidate is the y of the curve point with that x and parity, if there is one |
| PublicKey.ValidatePubkey | libs/crypto/ecdsa.c:978-1009 | accepts exactly the finite points of the curve with reduced coordinates |
| PublicKey.ReadPubkey | libs/crypto/ecdsa.c:953-970 | succeeds exactly when the bytes encode a valid point, and reads that point |
| Ecdsa.BasedGroup | libs/crypto/ecdsa.c:1088-1152 | a nonzero multiple of a generator of prime order generates the group, so point_multiply applies to every public key |
| Ecdsa.SignatureVerifies | libs/crypto/ecdsa.c:682-785 | every (r, s) of the signing equation, low-s negation included, verifies under its own key |
| Ecdsa.SignatureRecovers | libs/crypto/ecdsa.c:1031-1085 | the recovery byte names the nonce point (negated after low-s negation), and recovery gives d G |
| Ecdsa.SignScalar | libs/crypto/ecdsa.c:737-745 | s k = r d + z modulo n, in spite of blinding |
| Ecdsa.SignatureUnique | libs/crypto/ecdsa.c:682-785 | key, digest and nonce determine signature and recovery byte: low-s negation leaves no choice |
| Ecdsa.SignDigest | libs/crypto/ecdsa.c:682-785 | 1 exactly for the zero digest; otherwise -1 exactly if every attempt is skipped (unusable nonce, s = 0, not canonical), 2 exactly for an invalid key and some usable nonce, and else 0 with the signature that the first attempt not skipped determines, s at most n / 2 |
| Rfc6979.OutputsAre | libs/crypto/rfc6979.c:51-62 | call i of the generator gives V of step h of section 3.2 of RFC 6979 after i rejected candidates |
| Rfc6979.ReducedDigest | libs/crypto/rfc6979.c:29-48 | one conditional subtraction reduces every digest modulo the order, and its 32 bytes are written |
| Rfc6979.Nonces | libs/crypto/rfc6979.c:29-62 | the nonces are the candidates of section 3.2 of RFC 6979 for key and reduced digest, in order |
| Rfc6979.Sign | libs/crypto/ecdsa.c:682-785 | signing with these nonces: all four return codes exactly, the first candidate of RFC 6979 that is not skipped decides, and the signature is the one it determines |
| Rfc6979.SignTwice | libs/crypto/ecdsa.c:682-785 | the random numbers that blind a signing change neither the return code nor the signature |
| Ecdsa.VerifyAnyKey | libs/crypto/ecdsa.c:1088-1152 | the verdict depends on the key and not on the scalar that names it |
| Ecdsa.VerifyDigest | libs/crypto/ecdsa.c:1088-1152 | the code of section 4.1.4 of SEC 1 version 2 for every key encoding, signature and digest, with the source's error codes and their order |
| Ecdsa.RecoverPub | libs/crypto/ecdsa.c:1031-1085 | section 4.1.6 of SEC 1 version 2: 1 exactly when there is no nonce point or the key is infinity, otherwise the uncompressed key (s k - z) / r G |
| Ecdsa.SignVerifyRecover | libs/crypto/ecdsa.c:682-785 | what is signed verifies for every encoding of the key, and recovery with the returned byte writes that key |
| Base58.AlphabetInverse | libs/crypto/base58.c:40-50 | the digit table and the character map are inverse to each other, and every other byte is invalid |
| Base58.BufferHolds | libs/crypto/base58.c:165-165 | 256^n < 58^(138 n / 100 + 1), so the buffer holds every number of n bytes |
| Base58.EncodeRoom | libs/crypto/base58.c:169-179 | until the last byte the first place stays zero, which makes the `high` shortcut sound, and no carry is lost |
| Base58.TimesByte | libs/crypto/base58.c:169-179 | one pass of the inner loop multiplies by 256 and adds a byte although it stops early; places up to the new `high` are zero |
| Base58.Encode | libs/crypto/base58.c:157-195 | a '1' per leading zero byte and the base-58 digits without leading zeros; succeeds exactly when text and terminator fit, and reports the needed size either way |
| Base58.TimesDigit | libs/crypto/base58.c:96-100 | one pass over the words multiplies by 58 and adds a digit, with the exact carry out |
| Base58.WordsFit | libs/crypto/base58.c:101-107 | the mask test on the first word passes exactly when the number fits into the buffer's bytes |
| Base58.ReadDigits | libs/crypto/base58.c:85-107 | fails exactly on an invalid digit or a number too large for the buffer; otherwise the words spell the number |
| Base58.WriteWords | libs/crypto/base58.c:109-121 | the words are written as bytes of the same number |
| Base58.Decode | libs/crypto/base58.c:61-137 | a zero byte per leading '1' and the number's bytes at the end of the buffer, exactly when they fit |
| Base58.DecodeEncode | libs/crypto/base58.c:61-195 | decoding undoes encoding for every byte string and every buffer that can hold it |
| Base58.EncodeDecode | libs/crypto/base58.c:61-195 | encoding undoes decoding for every accepted string |
| Sha2.Context.AddBits | libs/crypto/sha2.c:106-111 | the bit counter grows modulo 2^64 or 2^128, with the carry of ADDINC128 |
| Sha2.Context.ToHostOrder | libs/crypto/sha2.c:857-861 | turning the words around in place gives a little-endian host the big-endian words of the bytes before |
| Sha2.Context.Update | libs/crypto/sha2.c:839-895 | the context goes on to hold the message with the data appended, for data of any length (word size 8: lines 1144-1200) |
| Sha2.Context.Final | libs/crypto/sha2.c:897-949 | the digest of the padded message, with the padding in one block or two (word size 8: lines 1202-1258) |
| Sha2.LongTail | libs/crypto/sha2.c:897-949 | padding as in sections 5.1.1 and 5.1.2 of FIPS 180-4 ends in exactly the one or two blocks the code transforms |
| Sha2.LengthWords | libs/crypto/sha2.c:930-932 | the two words taken from the counter are the length field (word size 8: lines 1233-1235) |
| Sha2.HashChunks | libs/crypto/sha2.c:839-949 | every way of cutting a message into updates gives the digest of the whole message |
| HmacDrbg.XorWordsBytes | libs/crypto/hmac_drbg.c:66-77 | mixing 32-bit words with a repeated byte mixes each byte of the padded key |
| HmacDrbg.BlockHash | libs/crypto/hmac_drbg.c:81-84 | a block and 32 bytes hash in two transforms on the ready-made padding words |
| HmacDrbg.DomainHash | libs/crypto/hmac_drbg.c:34-39 | the hand-padded words for the empty data are the padding of V followed by a zero byte |
| HmacDrbg.Drbg.DataInner | libs/crypto/hmac_drbg.c:40-59 | a hash started in the middle of its second block gives the inner hash of HMAC |
| HmacDrbg.Drbg.UpdateV | libs/crypto/hmac_drbg.c:81-84 | the state goes from (K, V) to (K, HMAC(K, V)) |
| HmacDrbg.Drbg.UpdateK | libs/crypto/hmac_drbg.c:28-79 | the state goes from (K, V) to (HMAC(K, V + domain + data), V), with the new pads precomputed |
| HmacDrbg.Drbg.Reseed | libs/crypto/hmac_drbg.c:108-115 | one or two update rounds; the second is skipped when the entropy is empty |
| HmacDrbg.Drbg.Init | libs/crypto/hmac_drbg.c:86-106 | the state represents the one reseeded from K = 0...0 and V = 1...1 |
| HmacDrbg.InitIsSeeded | libs/crypto/hmac_drbg.c:86-106 | with entropy that is steps b to g of section 3.2 of RFC 6979 for the joined seed |
| HmacDrbg.EmptyEntropy | libs/crypto/hmac_drbg.c:86-115 | without entropy the start is the state after steps d and e; steps f and g would lead from it to the start of RFC 6979 |
| HmacDrbg.EmptyEntropyDiffers | libs/crypto/hmac_drbg.c:86-115 | a compression function for which the two differ, for every nonce |
| HmacDrbg.Drbg.Generate | libs/crypto/hmac_drbg.c:117-130 | the first bytes of successive values of V, then K = HMAC(K, V + 0x00) and V = HMAC(K, V) |
| HmacDrbg.Session | libs/crypto/hmac_drbg.c:86-130 | seeding and then any series of outputs gives exactly the values of section 3.2 of RFC 6979 with HMAC of section 2 of RFC 2104 |
| Bip32.GetPublicKey33 | libs/crypto/ecdsa.c:790-812 | the compressed point of a valid key; -1 for an invalid one |
| Bip32.TryPrivate | libs/crypto/bip32.c:227-246 | one try accepts exactly the MACs whose left half is below n and whose child key is not 0, and gives that key |
| Bip32.TryPublic | libs/crypto/bip32.c:296-313 | one try accepts exactly the MACs whose left half is below n and whose child point is finite, and gives that point |
| Bip32.HDNode.FillPublicKey | libs/crypto/bip32.c:472-507 | the compressed point of the private key, computed if unset |
| Bip32.HDNode.PrivateCkd | libs/crypto/bip32.c:195-267 | the child of the first acceptable MAC of the retry chain, for hardened and plain indices |
| Bip32.PublicCkdPoint | libs/crypto/bip32.c:280-317 | the child point of the first acceptable MAC; hardened indices fail |
| Bip32.HDNode.PublicCkd | libs/crypto/bip32.c:319-340 | fails exactly when the key is invalid, the index hardened or every try fails; otherwise the compressed child of the same search; a key marked as uncompressed takes its second half from the bytes behind the field |
| Bip32.SearchFirst | libs/crypto/bip32.c:231-254 | the retry chain stops at its first acceptable MAC, and finds none among the tries it has exactly if none of them is acceptable |
| Bip32.SearchLonger | libs/crypto/bip32.c:231-254 | a result found with some tries is the same with any larger number of them |
| Bip32.SearchesAgree | libs/crypto/bip32.c:195-317 | private and public derivation stop at the same MAC after the same number of retries |
| Bip32.ChildrenAgree | libs/crypto/bip32.c:195-317 | the point of the private child is the public child |
| Bip32.DeriveBothWays | libs/crypto/bip32.c:195-340 | for every plain index: private derivation then public key equals public derivation, with the same chain code, depth and number |
| Bip32Cache.Cache.FindParent | libs/crypto/bip32.c:400-424 | a hit is the node plain derivation reaches; a miss means no slot serves; another root empties the cache |
| Bip32Cache.Cache.DeriveParent | libs/crypto/bip32.c:426-442 | the parent of plain derivation, saved in the round-robin slot and nowhere else, every set slot staying right; a failure changes nothing |
| Bip32Cache.Cache.Derive | libs/crypto/bip32.c:386-450 | success, node and parent fingerprint of plain derivation, whatever the cache holds |
| Bip32Cache.PlainIsFold | libs/crypto/bip32.c:386-450 | if completing a public key changes no child, plain derivation succeeds exactly if the fold over the whole path does, with the same node |
| Bip32Cache.DeriveAll | libs/crypto/bip32.c:386-450 | the same for every series of calls with changing roots |
| Bip32Tree.FilledKeeps | libs/crypto/bip32.c:472-507 | completing a node's public key changes none of its children |
| Bip32Tree.DeriveChild | libs/crypto/bip32.c:195-267 | one private derivation replaces the whole node with the child given as a value |
| Bip32Tree.DerivePath | libs/crypto/bip32.c:426-431 | deriving index by index ends at the fold of these children over the path, or fails where it fails |
| Bip32Tree.CachedIsFold | libs/crypto/bip32.c:386-450 | derivation through the cache of these nodes is the fold over the whole path, with or without the fingerprint |
| ProverCache.GlobalCache.Cleanup | src/prover/prover.c:183-225 | the in-place compaction leaves exactly the kept entries in order, their summed size, and the frees of the removed ones |
| ProverCache.GlobalCache.AddEntry | src/prover/prover.c:228-280 | makes room if needed, grows the array, and appends the copy with a 64-bit expiry time that may wrap |
| ProverCache.GlobalCache.Find | src/prover/prover.c:283-291 | the first live entry of a key |
| ProverCache.GlobalCache.Invalidate | src/prover/prover.c:294-303 | the live entry's timestamp becomes 0 and nothing else changes |
| ProverCache.Context.Get | src/prover/prover.c:119-164 | own list first, then a borrow from the first live global entry unless in a worker; the whole new state of both levels |
| ProverCache.Context.Set | src/prover/prover.c:166-175 | the entry is pushed in front of the context's list |
| ProverCache.Context.Free | src/prover/prover.c:374-416 | entries are released head first: moved, given back or freed, each against the state the previous one left |
| CacheRuns.CompactKeeps | src/prover/prover.c:183-225 | cleanup keeps an order-preserving subsequence with every entry in use, and keeps no unused expired entry |
| CacheRuns.CompactFits | src/prover/prover.c:183-225 | what is kept fits the limit apart from entries in use |
| CacheRuns.AddedFits | src/prover/prover.c:228-280 | after adding an entry the total is at most the limit plus the entries in use, plus the entry itself only if it alone passes the limit |
| CacheRuns.StepConserves | src/prover/prover.c:166-416 | every call conserves values, a whole free included: owners and frees grow by what is handed over |
| CacheRuns.RunConserves | src/prover/prover.c:166-416 | in every run each value handed over is owned once or freed once: owners plus frees equal the times it was given |
| CacheRuns.RunShape | src/prover/prover.c:183-303 | in every run, invalidations included, current_size is the sum of the stored sizes and no key has two live entries |
| CacheBorrows.FreeCounted | src/prover/prover.c:374-416 | a free keeps every live entry's use_counter equal to the borrowed copies of its key if and only if no key that it brings in, live when it returns, has a borrowed copy in another context |
| CacheBorrows.StepCounted | src/prover/prover.c:119-416 | one call keeps the counters right if and only if it is tidy, that is, not such a free; invalidations always keep them |
| CacheBorrows.CountedIffTidy | src/prover/prover.c:119-416 | the counters are right after every call of a run if and only if every call is tidy |
| CacheBorrows.StepKept | src/prover/prover.c:183-416 | where the counters are right no call, not even a free that is not tidy, drops an entry, live or invalidated, whose value a context has borrowed |
| CacheBorrows.NothingDangles | src/prover/prover.c:183-416 | as long as every call but the last is tidy no context holds a value that has been freed, for every value handed over once |
| CacheBorrows.UntidyDangles | src/prover/prover.c:183-416 | after a free that is not tidy four whole calls with a clock that never runs backwards, handing over nothing, end with a context holding the freed value of the entry that came in, if that entry has a free function and can still be removed |
| CacheBorrows.StepBacked | src/prover/prover.c:119-416 | from a state in which every borrowed key has a live entry each call is tidy, and it keeps that if and only if it does not invalidate a borrowed key |
| CacheBorrows.CarefulIsTidy | src/prover/prover.c:119-416 | so a run that never invalidates a borrowed key is tidy |
| CacheBorrows.OwnCopiesTidy | src/chains/eth/prover/beacon.c:88-89 | freeing a context is tidy if no other context has borrowed one of its keys, so a context may borrow, invalidate and replace a key by itself |
| CacheBorrows.GotHolds | src/prover/prover.c:119-164 | a lookup answers with the value of an entry that is then in the context's list |
| CacheBorrows.RunBorrowsBounded | src/prover/prover.c:119-164 | in every run a context borrows a key at most once, so a key never has more borrowed copies than there are contexts |
| CacheBorrows.CountersBounded | src/prover/prover.c:119-416 | in a tidy run the use_counter of a live entry is at most the number of contexts |
| CacheBorrows.StaleRunDangles | src/prover/prover.c:294-416 | a concrete run of whole calls, with a clock that runs forward, that is not tidy and ends with a context holding a freed value |
| Memcache.Client.constructor | src/server/cache.c:204-253 | a pool of idle connections whose connects are outstanding, satisfying the invariant |
| Memcache.CreditFinds | src/server/cache.c:312-346 | a positive number of credits always finds a free connection |
| Memcache.Client.GetConnection | src/server/cache.c:312-346 | takes the first free connection and one credit, or nothing |
| Memcache.Client.QueueOperation | src/server/cache.c:365-386 | appends at the tail unless the queue is full |
| Memcache.Client.Operate | src/server/cache.c:981-1090 | a get or set is started, queued or refused, with the callback and return value of each case; a queued set keeps the copy strndup makes and the original length |
| Memcache.CopyExact | src/server/cache.c:622-628 | a queued set writes its caller's value if and only if no zero byte comes before the last byte; otherwise it reads behind the copy |
| Memcache.Client.ProcessQueue | src/server/cache.c:389-419 | terminates, because a dequeued operation finds a connection and is never queued again |
| Memcache.Client.ReleaseConnection | src/server/cache.c:1105-1134 | the connection and its credit come back and the queue is processed |
| Memcache.Client.HandleConnect | src/server/cache.c:182-200 | a connect callback adds a credit on success |
| Memcache.Client.HandleWritten | src/server/cache.c:892-978 | a failed write or read start answers a get and leaves the connection stuck |
| Memcache.Client.HandleGetRead | src/server/cache.c:738-890 | appends, examines, and on the end of the reply releases before calling back |
| Memcache.Client.HandleSetRead | src/server/cache.c:498-548 | any read of a set's reply releases the connection |
| Memcache.Client.CleanupQueue | src/server/cache.c:256-282 | every queued get is called back once, in order |
| Memcache.StepValid | src/server/cache.c:182-419 | every callback keeps credits plus connections in use equal to the connected ones, and connected plus outstanding connects within the pool |
| MemcacheRuns.CreditsAreBacked | src/server/cache.c:182-419 | in every run credits and connections in use together never exceed the pool, and a credit finds a connection |
| MemcacheRuns.RunAnswersOnce | src/server/cache.c:738-1134 | in every order of callbacks each accepted get is queued once, in flight on one connection, or called back once |
| MemcacheRuns.LaunchedInOrder | src/server/cache.c:389-419 | the operations taken are the front of the queue, and each of them took one credit |
| MemcacheRuns.RunFifo | src/server/cache.c:365-419 | in every run operations leave the queue in the order they entered it |
| MemcacheOrder.StepDrained | src/server/cache.c:182-419 | every event keeps a non-empty queue without credits, except exactly a connect callback that succeeds while operations are queued |
| MemcacheOrder.DrainedIff | src/server/cache.c:182-419 | so a run has no credit beside a queued operation if and only if no connection comes up while operations are queued |
| MemcacheOrder.OvertakesIff | src/server/cache.c:312-419 | a new operation is started before the queued ones exactly if there is a credit beside them |
| MemcacheOrder.SecondOvertakes | src/server/cache.c:182-419 | a concrete run in which the second get is started and the first stays queued |
| MemcacheOrder.RunWrites | src/server/cache.c:603-716 | in every run each set in flight has written its caller's value, or the copy of it if it was queued |
| MemcacheLinks.ConnectedCounts | src/server/cache.c:182-201 | in every run connected counts the successful connect callbacks |
| MemcacheLinks.RequestsAreConnected | src/server/cache.c:312-346 | in every run whose connections connect in the order of their indices, every connection in use is connected |
| MemcacheLinks.OutOfOrder | src/server/cache.c:312-346 | the first connection that connects out of order has a continuation, of get calls only, that puts a request on a connection that is not connected |
| MemcacheLinks.SecondFirst | src/server/cache.c:312-346 | two connections, the second connects first: the first get goes to the first connection, which is not connected |
| MemcacheServer.NextMatched | src/server/cache.c:498-890 | with a server that answers each request in order, every event keeps it so that each connection has still to read the rest of the reply to its own request and callbacks got no value or that of their own reply, except exactly a read of a part of a set's reply after which the connection is not stuck |
| MemcacheServer.MatchedIff | src/server/cache.c:498-890 | over whole runs, failing reads included: this holds in every state if and only if there is no such read |
| MemcacheServer.PartCuts | src/server/cache.c:498-548 | a read of a part of a set's reply is one of those unless the write of a queued operation is refused |
| MemcacheServer.RunMatched | src/server/cache.c:498-890 | so in every run without such a read a callback gets no value or that of its own reply |
| MemcacheServer.OwnReply | src/server/cache.c:738-890 | in such a run the read that takes the last bytes of a reply calls back with the value of that reply |
| MemcacheServer.PartOfSet | src/server/cache.c:498-548 | after a read of only a part of STORED, for every such part, the next get is answered without its value |
| MemcacheServer.ReplyOfAnother | src/server/cache.c:498-890 | and the get after it is called back with the value of the reply to the get before it |
| MemcacheReply.Examine | src/server/cache.c:793-870 | computes the verdict on the bytes read so far, with the search for the header's end and all offsets modulo 2^64 |
| MemcacheReply.ScanFinds | src/server/cache.c:826-832 | the header scan reads the announced length of every well-formed header |
| MemcacheReply.HitExact | src/server/cache.c:793-870 | a value of the buffer is reported exactly for a header that announces its length, the value, and the END line after it |
| MemcacheReply.BeyondExact | src/server/cache.c:833-845 | a slice of 2^32 - 2 bytes that does not lie in the buffer is reported exactly if the header announces 2^64 - 2 bytes and the END line follows it |
| MemcacheReply.AstrayExact | src/server/cache.c:833-845 | bytes before the buffer are compared exactly for announced lengths 2^64 - (h + 3) and 2^64 - (h + 4) after a header of h bytes |
| MemcacheReply.AstrayGoesOn | src/server/cache.c:833-845 | whatever those bytes are, the comparison does not end the reply |
| MemcacheReply.IdealAgrees | src/server/cache.c:833-845 | for every announced length n with h + 9 + n < 2^64 the parser agrees with one whose offsets do not wrap |
| MemcacheReply.NegativeLength | src/server/cache.c:826-845 | a reply that announces -2 bytes is answered with such a slice, where offsets that do not wrap would wait for more |
| MemcacheReply.HitPrefix | src/server/cache.c:793-870 | no proper prefix of a hit of less than 2^32 bytes finishes, and the whole hit yields exactly the stored bytes, even if they contain CR LF or END lines |
| MemcacheReply.SplitHit | src/server/cache.c:738-890 | however a hit of less than 2^32 bytes is cut into reads, the parser finishes on the last one with the value |
| MemcacheReply.SplitMiss | src/server/cache.c:738-890 | however a miss is cut into reads, the parser finishes on the last one with a miss |

## Left out

- Bip32.HDNode.PrivateCkd: the endless retry loop has a number of tries, which by SearchLonger never changes a result that is found; curves without parameters (ed25519 and the like) and nodes with a private key outside [1, n) are not modelled.
- Bip32.HDNode.PublicCkd: the same number of tries.
- Bip32.PublicCkdPoint: the same number of tries.
- Bip32Cache.Cache.Derive: a node left half derived by a failing call is not described.
- ProverCache.GlobalCache.AddEntry: current_size and use_counter are unbounded numbers; in a tidy run a counter passes 32 bits only with 2^32 contexts, by CountersBounded, and the size passes 64 bits only with 2^32 entries of the largest size. Allocation failure ends the process in the source (src/util/bytes.c:64-100) and is not modelled.
- Memcache.Client.Operate: memcache_get (lines 981-1090) and memcache_set (lines 603-716) share one model; of the bytes written only a set's value is modelled, and allocation failure is not.
- MemcacheReply.HitPrefix: buffers of 2^32 bytes and more, which their length field cannot describe, are not modelled.
- MemcacheReply.SplitHit: the same.
- Base58.AlphabetInverse: the two tables are given by their ranges instead of element by element.
- HmacDrbg.Drbg.Generate: the byte buffer is a returned sequence.
- Compression rounds, Keccak, RIPEMD and the other hash functions: parameters or absent.
- Constant-time behaviour, wiping of memory and quality of randomness.
- base32, DER signatures, addresses, BIP-39, ed25519 and the Graphene variants: short or independent of the core.
- The inverse variants that are switched off, bn_digitcount, bit tests and little-endian conversions: easy members.
- Base58Check: a checksum around the conversions.
- The proof verifier, the provers, the HTTP server, configuration, bindings and build files.
- User callbacks that call the client again: such calls are later events here; after a callback the source only frees memory or makes another callback.
- Reconnection and shutdown of handles beyond emptying the queue.
