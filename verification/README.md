# Verified models of the vendored cryptographic and framing code

This project models, in Dafny, algorithms of the `external/cryptopp` library and the chunked framing of
`external/cpp-httplib`, both vendored by the node, and proves that each computes what it is meant to compute:
the fast forms equal plain definitions, streaming forms equal one-shot definitions for every way of
cutting the input, encoders and decoders undo each other, and decryption undoes encryption.
`dafny verify dfyconfig.toml` checks all of it.

Code that works by updating things is modelled by methods with loops, arrays and classes; each is
proved against a specification function, and the laws are proved about that function. Where a standard
publishes what is computed, further lemmas state it in the standard's own terms: Camellia's encryption is that
of RFC 3713 as a whole; of RFC 1950, 2144, 2612, 3610, 7693 and X.690 the parts named in the table.

| files | what they model |
|---|---|
| `Options`, `PowersOfTwo`, `Radix`, `BitStrings`, `ByteBits`, `Words`, `Blocks` | numbers, bits, bytes, words and blocks used throughout |
| `Group`, `WindowSlider`, `SimultaneousMultiply`, `CascadeMultiply`, `Heap`, `GeneralCascade` | exponentiation in an abstract group |
| `Euclid`, `NumberTheory`, `BlumBlumShub` | gcd, modular inverse, and random access into a Blum-Blum-Shub stream |
| `CcmSpec`, `Ccm`, `CcmProtocol`, `CcmOneShot`, `CcmStrings` | the authenticated-encryption state machine and CCM |
| `AsnLength`, `DerReencode`, `AsnOid`, `AsnUnsigned` | ASN.1 lengths, re-encoding, object identifiers, unsigned integers |
| `BitPacking`, `BaseNEncoder`, `BaseNDecoder`, `Grouper`, `BaseNRoundTrip` | the base-2^k filters |
| `BatchedBlocks`, `BlockModes`, `Cbc`, `Ctr` | six blocks at a time, and the modes that rely on it |
| `CmacSubkeys`, `Cmac`, `Blake2`, `Adler` | streaming MAC, hash and checksum |
| `CamelliaRound`, `CamelliaKeys`, `Camellia`, `CamelliaRfc`, `Cast128`, `Cast256`, `Blowfish` | block ciphers: inverse pairs, and the published schedules |
| `HexNumbers`, `HexSizes`, `Chunked`, `ChunkGrammar` | HTTP chunked framing |

How the world outside is represented: the group, the block cipher, the key stream of CTR inside CCM,
the compression function of BLAKE2, S-boxes and round functions are arbitrary functions, so every result
holds for all of them; Camellia's large tables are related to its small one by a stated hypothesis.
Exponents and moduli are unbounded integers; lengths, counters and words whose width matters are bounded
or wrapped explicitly. Streams and queues are sequences of bytes. A stream read may return any positive
number of bytes up to what was asked for. Exceptions are outcomes of the call. Where the code is more
permissive than a specification the model follows the code: a chunk without its line end is dropped and
the body so far accepted, a negative chunk size ends the body (`ChunkGrammar.AcceptsExactly`), and leading
zero octets of a number are read.

Some promises do not hold of the code for all inputs. For these the exact condition under which they
hold is proved, and a lemma gives an input outside it:
- the modular inverse of a unit is found exactly when the operand is smaller in magnitude than the
  modulus, or the modulus is one (`Euclid.MultiplicativeInverse`, `Euclid.LargeOperandWithInverse`);
- `Seek` agrees with stepping exactly when the reduced exponent is positive or the seed shares no factor
  with the modulus (`BlumBlumShub.BlumBlumShub.Seek`, `BlumBlumShub.SeekMissesSharedFactor`);
- an object identifier comes back exactly when its second arc is below 40 and its first octet fits in a byte
  (`AsnOid.OidRoundTrip`, `AsnOid.OidCounterexample`);
- an unsigned value encoded under a BOOLEAN tag comes back exactly when it is 0 or 0xff
  (`AsnUnsigned.UnsignedRoundTrip`, `AsnUnsigned.BooleanCounterexample`);
- what CCM seals opens again exactly when the tag kept is no longer than the digest size, though a longer
  one is given out (`CcmOneShot.SealThenOpen`, `CcmOneShot.LongTagRefused`);
- the base-class block loop does what its flags say exactly unless it goes backward over more than one block
  without xor blocks (`BatchedBlocks.BasicProcessBlocks`, `BatchedBlocks.BackwardWithoutXor`);
- for buffers that move on, batches of six give what the block loop gives exactly when there is no batch,
  no output lies one to five blocks ahead of an input, or the input is xored with itself (`BlockModes.BatchesAgree`,
  `BlockModes.UnsafeDistanceMatters`), and a CBC chain exactly below six blocks (`Cbc.ParallelFold`).

## Model

| member | source | states |
|---|---|---|
| `Group.TimesAdd` | external/cryptopp/algebra.h:26-107 | repeated addition of m + n copies is the sum of m copies and n copies, in every group that meets the laws |
| `Group.TimesMul` | external/cryptopp/algebra.h:26-107 | m times n times an element is m·n times it |
| `Group.TimesDistributes` | external/cryptopp/algebra.h:26-107 | in a commutative group a multiple of a sum is the sum of the multiples |
| `Group.IntTimesAdd` | external/cryptopp/algebra.h:26-107 | signed multiples add up, wherever inversion is available for the negative ones |
| `Group.InverseOfTimes` | external/cryptopp/algebra.h:26-107 | the inverse of a multiple is the multiple of the inverse |
| `Window.RecodeExact` | external/cryptopp/algebra.cpp:206-253 | the windows, each digit weighted by two to its position, sum to the exponent, for every exponent, window size and either setting of fastNegate |
| `Window.RecodeWellSpaced` | external/cryptopp/algebra.cpp:220-247 | digits are odd, of magnitude below 2^windowSize, negative only with fastNegate, and start at least windowSize positions apart, one more with fastNegate |
| `Window.RestShrinks` | external/cryptopp/algebra.cpp:235-246 | what is left above a window is smaller than the exponent even after the carry that fastNegate adds, and smaller by the window size unless nothing is left |
| `Window.OnlyZeroHasNoWindows` | external/cryptopp/algebra.cpp:225-233 | only the exponent zero yields no window |
| `Window.RecodeBounded` | external/cryptopp/algebra.cpp:220-247 | no window starts further on than the exponent is large |
| `Window.WindowSlider.constructor` | external/cryptopp/algebra.cpp:208-218 | a new slider has the whole recoding of its exponent before it, at the given window size or at one that grows with every limit the exponent's length passes |
| `Window.WindowSlider.FindNextWindow` | external/cryptopp/algebra.cpp:220-247 | each call takes the next window of the recoding, or finishes exactly when there is none |
| `Simultaneous.RunningSumsWeighOddly` | external/cryptopp/algebra.cpp:301-312 | the closing pass of running sums weighs bucket j by 2j + 1 |
| `Simultaneous.Combine` | external/cryptopp/algebra.cpp:301-312 | the closing pass over buckets holding multiples of the base gives the odd-weighted sum of those multiples |
| `Simultaneous.OddSumUpdate` | external/cryptopp/algebra.cpp:282-286 | adding to bucket k changes the odd-weighted sum by 2k + 1 times the addend |
| `Simultaneous.BucketInRange` | external/cryptopp/algebra.cpp:268-282 | half of a digit of a recoding is a bucket that exists, and stands for that digit |
| `Simultaneous.AddToBucket` | external/cryptopp/algebra.cpp:282-286 | the bucket gains the current multiple of the base or its inverse, the other buckets stay |
| `Simultaneous.StartAll` | external/cryptopp/algebra.cpp:258-269 | every slider stands at its first window and all buckets hold zero |
| `Simultaneous.Serve` | external/cryptopp/algebra.cpp:280-288 | at every position a slider whose window starts there deposits it in a bucket in range, none is ever passed over, and buckets plus remaining windows still make up the exponent |
| `Simultaneous.Pass` | external/cryptopp/algebra.cpp:275-297 | one round of the loop serves every exponent at the current power of two and tells whether any window is still to come |
| `Simultaneous.CombineAll` | external/cryptopp/algebra.cpp:299-313 | once all sliders are finished, every result is its exponent times the base |
| `Simultaneous.SimultaneousMultiply` | external/cryptopp/algebra.cpp:255-314 | result i is exponent i times the base, for any list of exponents and with or without fast inversion |
| `Simultaneous.ScalarMultiply` | external/cryptopp/algebra.cpp:90-95 | a single multiple is repeated addition |
| `Cascade.Fill` | external/cryptopp/algebra.cpp:107-128 | writing a combination fills its table slot and disturbs no slot filled before |
| `Cascade.FillOddRow` | external/cryptopp/algebra.cpp:118-119 | the odd multiples of x are filled in from x and 2x |
| `Cascade.FillOddColumns` | external/cryptopp/algebra.cpp:120-122 | every column of an odd multiple of x is filled in, all multiples of y added |
| `Cascade.FillOddMultiplesOfY` | external/cryptopp/algebra.cpp:124-125 | the odd multiples of y are filled in from y and 2y |
| `Cascade.FillOddRows` | external/cryptopp/algebra.cpp:126-128 | every row of an odd multiple of y is filled in from its odd slots and the column before |
| `Cascade.BuildTable` | external/cryptopp/algebra.cpp:103-129 | every slot with at least one odd coordinate holds that combination of x and y, for each of the three window sizes |
| `Cascade.StripZeros` | external/cryptopp/algebra.cpp:142-151 | common factors of two are moved behind the table lookup, the count before it does not go below zero, and a window that is not empty ends with an odd coordinate |
| `Cascade.Absorb` | external/cryptopp/algebra.cpp:142-166 | a closed window scales the result and adds its combination; only filled slots are read |
| `Cascade.WindowFits` | external/cryptopp/algebra.cpp:135-144 | the bits gathered since the last window are the exponent bits between the two positions, and never need more squarings than there are |
| `Cascade.CloseWindow` | external/cryptopp/algebra.cpp:140-167 | after a window closes at bit i the result is the combination of both exponents shifted down by i |
| `Cascade.ReadBit` | external/cryptopp/algebra.cpp:135-168 | one turn of the loop keeps that state for the next lower bit |
| `Cascade.CascadeScalarMultiply` | external/cryptopp/algebra.cpp:97-170 | the result is e1·x + e2·y for all non-negative e1 and e2 in a commutative group |
| `Heap.PushHeap` | external/cryptopp/algebra.cpp:198 | adding the last element restores the heap order and permutes the elements |
| `Heap.PopHeap` | external/cryptopp/algebra.cpp:185-199 | the largest exponent moves to the end, the rest is a heap, and the elements are permuted |
| `Heap.MakeHeap` | external/cryptopp/algebra.cpp:184 | the array becomes a heap with the same elements |
| `Heap.RootIsLargest` | external/cryptopp/algebra.cpp:189 | no exponent of a heap exceeds that of its first element |
| `GeneralCascade.SumOfPermutation` | external/cryptopp/algebra.cpp:172-204 | the weighted sum does not depend on the order of the pairs |
| `GeneralCascade.Redistribute` | external/cryptopp/algebra.cpp:190-196 | adding quotient times one base to the other and keeping the remainder leaves the sum of the two terms |
| `GeneralCascade.StepPreservesSum` | external/cryptopp/algebra.cpp:190-196 | replacing the larger exponent by its remainder keeps the weighted sum and lowers the sum of the exponents |
| `GeneralCascade.EuclideanStep` | external/cryptopp/algebra.cpp:190-196 | the body of the loop makes that replacement, with or without the shortcut for quotient one |
| `GeneralCascade.HeapStep` | external/cryptopp/algebra.cpp:187-200 | one turn of the loop keeps the weighted sum and the heap, and lowers the sum of the exponents |
| `GeneralCascade.OnlyLastCounts` | external/cryptopp/algebra.cpp:187-202 | once the largest of the others is zero, the weighted sum is the last term |
| `GeneralCascade.GeneralCascadeMultiplication` | external/cryptopp/algebra.cpp:172-204 | the result is the sum of exponent times base over all pairs |
| `Euclid.RemainderKeepsGcd` | external/cryptopp/algebra.cpp:56-68 | a pair and its remainder step have the same greatest common divisors |
| `Euclid.GcdUnique` | external/cryptopp/algebra.cpp:56-68 | a greatest common divisor is determined up to its sign |
| `Euclid.Gcd` | external/cryptopp/algebra.cpp:56-68 | the result divides both numbers, every common divisor divides it, and none is larger |
| `Euclid.MultiplicativeInverse` | external/cryptopp/algebra.cpp:70-88 | the result is the inverse when there is one and zero otherwise if and only if the modulus is one, the operand is smaller in magnitude than the modulus, or operand and modulus are not coprime; any other operand is answered with zero |
| `Euclid.LargeOperandWithInverse` | external/cryptopp/algebra.h:401-402 | nine lies outside that condition modulo four, has the inverse one there, and zero is not an answer for it |
| `NumberTheory.BinomialTheorem` | external/cryptopp/blumshub.cpp:55-62 | powers of a sum expand by binomial coefficients, the step Fermat's theorem is built on |
| `NumberTheory.Fermat` | external/cryptopp/blumshub.cpp:55-62 | every number is congruent to its p-th power modulo a prime p |
| `NumberTheory.FermatUnit` | external/cryptopp/blumshub.cpp:55-62 | the power p - 1 of a number that p does not divide is one modulo p |
| `NumberTheory.ReduceExponentPQ` | external/cryptopp/blumshub.cpp:55-62 | modulo the product of distinct primes p and q a positive exponent may be reduced modulo (p-1)(q-1) if and only if the reduced exponent is positive or neither prime divides the base |
| `BlumBlumShub.ModularGroupLawful` | external/cryptopp/blumshub.cpp:55-62 | multiplication modulo n meets the group laws the algorithms need, without inverses |
| `BlumBlumShub.TimesIsPower` | external/cryptopp/blumshub.cpp:55-62 | scalar multiples in the multiplicative group modulo n are powers modulo n |
| `BlumBlumShub.Exponentiate` | external/cryptopp/algebra.cpp:316-321 | exponentiation through the windowed group algorithm is the power modulo n |
| `BlumBlumShub.BlumBlumShub.constructor` | external/cryptopp/blumshub.cpp:9-53 | a fresh generator stands at bit zero of its stream, and each state gives as many bits as the length of the modulus, written in binary, has after its first |
| `BlumBlumShub.BlumBlumShub.GenerateBit` | external/cryptopp/blumshub.cpp:17-26 | the bit returned is the next of the stream, low bits of each square in turn, and the position moves by one |
| `BlumBlumShub.BlumBlumShub.GenerateByte` | external/cryptopp/blumshub.cpp:28-34 | a byte is the next eight bits, first bit highest |
| `BlumBlumShub.FromBitsBits` | external/cryptopp/blumshub.cpp:28-34 | the byte assembled from eight bits has exactly these bits |
| `BlumBlumShub.SeekState` | external/cryptopp/blumshub.cpp:55-62 | the state computed with the reduced exponent is the one stepping reaches if and only if the reduced exponent is positive or neither prime divides the seed |
| `BlumBlumShub.BlumBlumShub.Seek` | external/cryptopp/blumshub.cpp:55-62 | for distinct primes the generator then stands at bit 8·index of the stream under exactly that condition |
| `BlumBlumShub.SeekMissesSharedFactor` | external/cryptopp/blumshub.cpp:55-62 | with primes 2 and 3 and seed 2 the computed state is not the one stepping reaches |
| `CcmSpec.MaskTwice` | external/cryptopp/authenc.cpp:103-133 | masking with the key stream twice restores the data |
| `CcmSpec.MaskConcat` | external/cryptopp/authenc.cpp:103-133 | masking a message in two parts continues the key stream where the first part ended |
| `CcmSpec.MacInSections` | external/cryptopp/ccm.cpp:50-129 | the CBC-MAC over first block, header and message is the chain over the three sections in turn |
| `CcmStrings.FlagFields` | external/cryptopp/ccm.cpp:61 | the flag byte tells apart whether there is a header, the digest size and the number of length bytes |
| `CcmStrings.PrefixReadsBack` | external/cryptopp/ccm.cpp:70-88 | every header length is read back from its prefix, whatever follows: no short length can be taken for a mark |
| `CcmStrings.ReadsBack` | external/cryptopp/ccm.cpp:50-129 | digest size, nonce, header and message are read back from the authenticated string, whatever follows it |
| `CcmStrings.PrefixFree` | external/cryptopp/ccm.cpp:50-129 | no authenticated string begins another: if it does, digest size, nonce, header and message are equal |
| `CcmStrings.LimitsFit` | external/cryptopp/ccm.h:49-52 | the longest message and header are just those whose length fits its field |
| `Ccm.AuthenticateBlocks` | external/cryptopp/ccm.cpp:92-97 | the chain half of the buffer becomes the CBC chain over the whole blocks of the data, the other half stays, and the count of bytes left over is returned |
| `Ccm.AuthenticateData` | external/cryptopp/authenc.cpp:11-46 | whatever waits in the buffer, feeding more bytes keeps the chain over all whole blocks fed so far and holds back the rest |
| `Ccm.ChainWaiting` | external/cryptopp/ccm.cpp:107-112 | the waiting bytes are xored into the chain and it is enciphered, the bytes behind them untouched |
| `Ccm.SectionClose` | external/cryptopp/ccm.cpp:99-129 | chaining the waiting bytes with zeros behind them is the chain over the padded section |
| `CcmProtocol.LoadFirstBlock` | external/cryptopp/ccm.cpp:58-64 | the stores in their order lay out flag, nonce and as many length bytes as the nonce leaves, and encipher them |
| `CcmProtocol.DeclareLengths` | external/cryptopp/ccm.cpp:55-89 | the state after declaring is valid: the chain starts from the first block and the header prefix waits |
| `CcmProtocol.CloseSection` | external/cryptopp/ccm.cpp:99-129 | the chain becomes that over the section padded with zeros |
| `CcmProtocol.EnterMessage` | external/cryptopp/authenc.cpp:117-121 | closing the header opens an empty message section |
| `CcmProtocol.FeedMessage` | external/cryptopp/authenc.cpp:122-129 | in either stage the plaintext is authenticated and the key stream moves on by the bytes processed |
| `CcmProtocol.FinishMessage` | external/cryptopp/authenc.cpp:159-174 | the tag of a declared run is the one-shot tag, and the object needs a new nonce |
| `CcmProtocol.CcmCipher.SetKey` | external/cryptopp/authenc.cpp:48-60 | succeeds exactly for an allowed tag size and a nonce of allowed length, and then stands ready under that nonce; a refused tag size is stored all the same and leaves the object unkeyed, a missing or bad nonce leaves it keyed |
| `CcmProtocol.CcmCipher.Resynchronize` | external/cryptopp/authenc.cpp:62-73 | needs a key and a nonce of 7 to 13 bytes; then all totals are zero and nothing has been put in |
| `CcmProtocol.CcmCipher.SpecifyDataLengths` | external/cryptopp/cryptlib.cpp:239-251 | rejects a message too long for the nonce, any footer and a wrong stage, changing nothing; otherwise records the lengths, and the run counts as declared exactly when no data had been put in |
| `CcmProtocol.CcmCipher.Update` | external/cryptopp/authenc.cpp:75-101 | before the message, header bytes join those authenticated so far; after it the object enters the footer stage, if the message has its declared length; errors leave the state alone |
| `CcmProtocol.CcmCipher.ProcessData` | external/cryptopp/authenc.cpp:103-133 | message bytes are masked with the next key stream and their plaintext joins what is authenticated, in either direction; errors exactly as the stages and lengths demand |
| `CcmProtocol.CcmCipher.TruncatedFinal` | external/cryptopp/authenc.cpp:135-175 | when the lengths were declared before any data, the tag is the one-shot tag of all header and message bytes, however they were cut into calls; errors exactly as the totals and stages demand |
| `CcmProtocol.CcmCipher.TruncatedVerify` | external/cryptopp/cryptlib.cpp:412-424 | a tag longer than the digest size is refused before anything is computed; any other is right exactly when it is the beginning of the one-shot tag |
| `CcmOneShot.Feed` | external/cryptopp/cryptlib.cpp:253-269 | the calls both directions begin with mask the input and leave everything put in as declared, and fail only for a missing key, a bad nonce or a bad length |
| `CcmOneShot.EncryptAndAuthenticate` | external/cryptopp/cryptlib.cpp:253-260 | returns the sealed message and its tag exactly when there is a key and nonce and length are allowed, for every tag size up to the block size |
| `CcmOneShot.DecryptAndVerify` | external/cryptopp/cryptlib.cpp:262-269 | returns the plaintext and whether the tag is right exactly when there is a key, nonce and length are allowed and the tag is no longer than the digest size |
| `CcmOneShot.SealThenOpen` | external/cryptopp/cryptlib.cpp:253-269 | under the same key and digest size, what was sealed opens to the message and verifies if and only if the tag kept is no longer than the digest size; otherwise opening is refused |
| `CcmOneShot.LongTagRefused` | external/cryptopp/cryptlib.cpp:253-269 | at digest size 4 a tag of 16 bytes is given out, and refused when it comes back |
| `AsnLength.OctetsExact` | external/cryptopp/asn.cpp:60-71 | an accepted length is exactly the big-endian value of its octets; nothing has wrapped |
| `AsnLength.OctetsAccepted` | external/cryptopp/asn.cpp:60-71 | octets whose value fits 64 bits are accepted, leading zeros included, and all others overflow |
| `AsnLength.DecodeLengthExact` | external/cryptopp/asn.cpp:38-74 | a definite length is decoded if and only if the input starts with a length field for it |
| `AsnLength.LengthRoundTrip` | external/cryptopp/asn.cpp:17-74 | every 64-bit length decodes from its encoding, the rest of the input untouched |
| `AsnLength.DerLengthShortest` | external/cryptopp/asn.cpp:17-36 | no length field for a number is shorter than its encoding |
| `AsnLength.DERLengthEncode` | external/cryptopp/asn.cpp:17-36 | appends that encoding and returns its size |
| `AsnLength.BERLengthDecode` | external/cryptopp/asn.cpp:38-74 | decodes the length at the head of the queue and takes exactly its octets; at the end of input nothing is left, and an overflow takes the octets up to it |
| `DerReencode.ReencodeElement` | external/cryptopp/asn.cpp:216-231 | every well-formed element at any nesting depth is consumed exactly and comes out with the indefinite levels made definite and definite contents unchanged |
| `DerReencode.AcceptsOnlyElements` | external/cryptopp/asn.cpp:216-231 | whatever is accepted is a well-formed element followed by what is left |
| `DerReencode.IndefiniteNeedsBit` | external/cryptopp/asn.cpp:418-419 | under every tag, elements closed by end octets are re-encoded if and only if bit 5 of the tag is set |
| `DerReencode.IndefiniteTags` | external/cryptopp/asn.cpp:418-419 | so SEQUENCE and SET may be indefinite, and INTEGER, OCTET STRING and a primitive application tag may not |
| `DerReencode.ReencodeIdempotent` | external/cryptopp/asn.cpp:216-231 | output is an element that re-encoding leaves as it is |
| `DerReencode.DERReencode` | external/cryptopp/asn.cpp:216-231 | succeeds exactly when the source starts with something re-encoding accepts, consumes just that and appends its definite form |
| `DerReencode.ReencodeContents` | external/cryptopp/asn.cpp:226-229 | the loop re-encodes element after element up to the end octets, which it removes |
| `AsnOid.ArcExact` | external/cryptopp/asn.cpp:240-257 | an accepted arc is the exact base-128 value of its octets, below 2^32 |
| `AsnOid.ArcAccepted` | external/cryptopp/asn.cpp:240-257 | octets whose base-128 value fits 32 bits are accepted, and all others refused |
| `AsnOid.ArcRoundTrip` | external/cryptopp/asn.cpp:233-257 | every 32-bit arc decodes from its encoding |
| `AsnOid.ArcsRoundTrip` | external/cryptopp/asn.cpp:264-297 | a list of arcs decodes from its encoding of known length |
| `AsnOid.OidDecodes` | external/cryptopp/asn.cpp:259-298 | what any identifier decodes to: the first octet taken apart again, the other arcs unchanged |
| `AsnOid.OidRoundTrip` | external/cryptopp/asn.cpp:259-298 | an identifier comes back if and only if its second arc is below 40 and its first octet below 256 |
| `AsnOid.OidCounterexample` | external/cryptopp/asn.cpp:259-298 | 2.40 comes back as 3.0 |
| `AsnOid.KnownOid` | external/cryptopp/asn.cpp:259-269 | 1.2.840.113549 is 06 06 2a 86 48 86 f7 0d |
| `AsnOid.SevenBitsADigit` | external/cryptopp/asn.cpp:233-238 | the number of octets computed from the bit count is the number of base-128 digits |
| `AsnOid.EncodeValue` | external/cryptopp/asn.cpp:233-238 | appends the arc, seven bits an octet, continuation bits on all but the last |
| `AsnOid.DecodeValue` | external/cryptopp/asn.cpp:240-257 | decodes one arc and counts its octets |
| `AsnOid.OID.DEREncode` | external/cryptopp/asn.cpp:259-269 | appends the whole identifier |
| `AsnOid.OID.BERDecode` | external/cryptopp/asn.cpp:271-298 | succeeds exactly when the head of the queue decodes as an identifier, takes its values and leaves the rest |
| `AsnUnsigned.ContentValue` | external/cryptopp/asn.h:457-481 | the content octets have the value (0 or 0xff for a BOOLEAN), no sign bit outside BOOLEAN, and at most one octet more than the value needs |
| `AsnUnsigned.ContentShortest` | external/cryptopp/asn.h:457-481 | no content without a sign bit is shorter |
| `AsnUnsigned.StripFits` | external/cryptopp/asn.h:521-528 | dropping leading zeros makes the content fit the type exactly when its value does |
| `AsnUnsigned.UnsignedDecodes` | external/cryptopp/asn.h:457-536 | what every encoded value decodes to, under every tag and every range |
| `AsnUnsigned.UnsignedRoundTrip` | external/cryptopp/asn.h:457-536 | a value in range comes back if and only if the tag is not BOOLEAN or the value is 0 or 0xff |
| `AsnUnsigned.BooleanCounterexample` | external/cryptopp/asn.h:457-536 | one under a BOOLEAN tag comes back as 0xff |
| `AsnUnsigned.NoContent` | external/cryptopp/asn.h:506-509 | empty content is an error for the tags 1, 2 and 10 and zero for every other tag |
| `AsnUnsigned.TwoOctets` | external/cryptopp/asn.h:506-507 | two content octets are an error for tag 1 and their value for every other tag |
| `AsnUnsigned.ContentBuffer` | external/cryptopp/asn.h:468-475 | the end of the buffer holds the content octets of the value |
| `AsnUnsigned.ReadContent` | external/cryptopp/asn.h:521-532 | content that fits after dropping zeros gives its value without wrapping, any other is refused |
| `AsnUnsigned.DEREncodeUnsigned` | external/cryptopp/asn.h:457-481 | appends the encoding and returns its size |
| `AsnUnsigned.BERDecodeUnsigned` | external/cryptopp/asn.h:493-536 | succeeds exactly when the head of the queue decodes to a value in range, leaves the rest, and never returns a value that does not fit the type |
| `BitPacking.Append` | external/cryptopp/basecode.cpp:48-176 | or-ing shifted bits into the open cell appends them to the bits packed, in any cell width |
| `BaseNEncoder.PackByte` | external/cryptopp/basecode.cpp:56-79 | the inner loop packs the eight bits of a byte over as many characters as they take, inside the block |
| `BaseNEncoder.PutByte` | external/cryptopp/basecode.cpp:51-94 | a byte joins those taken, and a full block is sent as characters |
| `BaseNEncoder.LastCharacters` | external/cryptopp/basecode.cpp:97-102 | the characters left at the end are the waiting bits with zeros behind them |
| `BaseNEncoder.Finish` | external/cryptopp/basecode.cpp:95-111 | what is sent at the end completes the encoding of everything taken |
| `BaseNEncoder.Encoder.Put2` | external/cryptopp/basecode.cpp:48-113 | however a message is cut into calls, what has been sent at its end is its encoding with padding |
| `BaseNEncoder.Initialize` | external/cryptopp/basecode.cpp:22-46 | fails exactly outside 1 to 7 bits per character, and pads only when wanted |
| `BaseNEncoder.OutputBlockSize` | external/cryptopp/basecode.cpp:40-43 | the search finds the least common multiple of 8 and the bits per character |
| `BaseNDecoder.PackValue` | external/cryptopp/basecode.cpp:146-162 | a value's bits are packed over one or two bytes, inside the block |
| `BaseNDecoder.PutValue` | external/cryptopp/basecode.cpp:143-168 | a character with a value joins those taken, and a full block is sent |
| `BaseNDecoder.DecodingEnds` | external/cryptopp/basecode.cpp:170-174 | the whole bytes in the buffer complete the decoding of everything taken |
| `BaseNDecoder.OutputBlockSize` | external/cryptopp/basecode.cpp:125-128 | the search ends at the same number of bits as that of the encoder |
| `BaseNDecoder.Initialize` | external/cryptopp/basecode.cpp:115-131 | fails exactly outside 1 to 7 bits per character |
| `BaseNDecoder.Decoder.Put2` | external/cryptopp/basecode.cpp:133-176 | however the characters are cut into calls, what has been sent at the end are the whole bytes of the values looked up, characters without value skipped |
| `Grouper.ExtendGroup` | external/cryptopp/basecode.cpp:214-236 | bytes that fit the last group extend it |
| `Grouper.BeginGroup` | external/cryptopp/basecode.cpp:221-225 | once the last group is full, more bytes come after a separator |
| `Grouper.Filter.PutGroups` | external/cryptopp/basecode.cpp:217-233 | the loop sends the input with a separator before each further group |
| `Grouper.Filter.Put2` | external/cryptopp/basecode.cpp:214-243 | however a message is cut into calls, what has been sent at its end are its groups, separated, and the terminator |
| `BaseNRoundTrip.InitializeDecodingLookupArray` | external/cryptopp/basecode.cpp:178-197 | every character maps to the last alphabet entry it is read as, or to -1 |
| `BaseNRoundTrip.ReadsEitherCase` | external/cryptopp/basecode.cpp:187-195 | without regard to case a character is read as itself and, exactly if it is one of the 26 letters, in its other case |
| `BaseNRoundTrip.LookupInverts` | external/cryptopp/basecode.cpp:178-197 | that array inverts the alphabet if and only if no entry is read as a later one |
| `BaseNRoundTrip.RoundTrip` | external/cryptopp/basecode.cpp:22-243 | decoding the grouped encoding returns the message, for 1 to 7 bits per character, when the lookup inverts the alphabet and skips padding, terminator and, if there are groups, separator |
| `BaseNRoundTrip.PutThrough` | external/cryptopp/basecode.cpp:48-243 | a part put into the encoder reaches the decoder, each filter having taken what the one before it sent |
| `BaseNRoundTrip.RunThrough` | external/cryptopp/basecode.cpp:48-243 | encoder, grouper and decoder attached return the message in whatever parts it is put in |
| `BatchedBlocks.BasicProcessBlocks` | external/cryptopp/cryptlib.cpp:147-194 | for blocks of any size the rounds are run in order and the bytes that make no block returned, unless the call goes backward over more than one block without xor blocks: exactly then a null pointer that was moved is read |
| `BatchedBlocks.BackwardWithoutXor` | external/cryptopp/cryptlib.cpp:158-182 | two blocks backward without xor blocks: the base class reads the moved null pointer, the template enciphers both blocks |
| `BatchedBlocks.BatchIsRounds` | external/cryptopp/adv-simd.h:357-437 | a batch is the rounds it stands for, when none reads what an earlier one writes and the counter is kept apart |
| `BatchedBlocks.SingleIsRound` | external/cryptopp/adv-simd.h:440-462 | a single block, counting before it stores, is the round of the base class, which stores first |
| `BatchedBlocks.ScheduleIsRounds` | external/cryptopp/adv-simd.h:355-462 | batches of six and single blocks together are the per-block rounds, when the rounds are independent |
| `BatchedBlocks.ProcessBatch` | external/cryptopp/adv-simd.h:357-437 | loads, counts, combines, enciphers and stores six blocks in the order given |
| `BatchedBlocks.ProcessSingle` | external/cryptopp/adv-simd.h:442-460 | processes a single block |
| `BatchedBlocks.AdvancedProcessBlocks128` | external/cryptopp/adv-simd.h:316-465 | runs the schedule for every length and flags, equals the per-block rounds when they are independent, and returns the bytes left |
| `BlockModes.SafeIsIndependent` | external/cryptopp/adv-simd.h:355-437 | rounds over moving buffers are independent unless six or more are batched and the output lies one to five blocks ahead of an input |
| `BlockModes.SelfXoredSchedule` | external/cryptopp/adv-simd.h:355-462 | an input xored with itself may be batched at any distance, if the exclusive or cancels |
| `BlockModes.UnsafeDistanceMatters` | external/cryptopp/adv-simd.h:355-437 | at every such unsafe distance, unless the input is xored with itself, the cipher that adds one tells batches from the loop on 128-bit blocks of zeros |
| `BlockModes.BatchesAgree` | external/cryptopp/adv-simd.h:355-462 | on 128-bit blocks batches give what the loop gives, for every injective cipher and every memory, if and only if there is no batch, the output is at no unsafe distance, or the input is xored with itself |
| `BlockModes.IndependentBlocks` | external/cryptopp/adv-simd.h:316-465 | in either direction each output block is the enciphered input with its xor block before or after, wherever the buffers lie apart, coincide or the output stays behind |
| `BlockModes.CounterBlocks` | external/cryptopp/adv-simd.h:355-462 | block j is the encryption of the counter counted up j times, xored with the input; the counter ends counted up once per block |
| `Cbc.FoldIsCbc` | external/cryptopp/adv-simd.h:440-462 | without parallelism, xoring input into a register that stays put is the CBC chain, and nothing else changes |
| `Cbc.FoldRounds` | external/cryptopp/cryptlib.cpp:147-194 | in the base class the fold is the CBC chain with or without parallelism |
| `Cbc.ParallelFoldFails` | external/cryptopp/adv-simd.h:355-437 | from six blocks on, for every injective cipher and every memory, changing the first block changes the chain but not what batches give, so one of the two results is wrong |
| `Cbc.ParallelFold` | external/cryptopp/adv-simd.h:355-437 | for every injective cipher on 128-bit blocks the parallel fold is right on every memory if and only if there are fewer than six blocks |
| `Cbc.DecryptEncrypt` | external/cryptopp/modes.cpp:175-236 | CBC decryption undoes CBC encryption |
| `Cbc.EncryptInParts` | external/cryptopp/modes.cpp:175-185 | encrypting in parts, carrying the register, is encrypting at once |
| `Cbc.DecryptInParts` | external/cryptopp/modes.cpp:224-236 | so is decrypting in parts |
| `Cbc.DecryptRounds` | external/cryptopp/modes.cpp:232-233 | processed last block first, every block is decrypted with the ciphertext block that was before it, in spite of overwriting |
| `Cbc.CbcEncryption.ProcessData` | external/cryptopp/modes.cpp:175-185 | the output is the CBC encryption, in place or elsewhere, the register its last block, and no other memory changes |
| `Cbc.CbcDecryption.ProcessData` | external/cryptopp/modes.cpp:224-236 | the output is the CBC decryption, in place or elsewhere, the register the last ciphertext block as it was |
| `Cbc.EncryptThenDecrypt` | external/cryptopp/modes.cpp:175-236 | encrypting and decrypting a buffer in place restores the memory |
| `Ctr.AdvanceCounts` | external/cryptopp/adv-simd.h:448-449 | counting up the last byte counts the block's number while that byte does not wrap |
| `Ctr.AdvanceWraps` | external/cryptopp/modes.cpp:130-134 | when the last byte wraps, the other bytes lack exactly one |
| `Ctr.IncrementCounterByOne` | external/cryptopp/misc.h:1108-1113 | the bytes become those of the number plus one, wrapping at their size |
| `Ctr.Carry` | external/cryptopp/modes.cpp:133-134 | after a batch that ends at or before the wrap the counter is the number plus the blocks |
| `Ctr.ProcessPart` | external/cryptopp/modes.cpp:131-132 | a run of blocks up to the wrap is the schedule, whether the cipher batches or not |
| `Ctr.OperateKeystream` | external/cryptopp/modes.cpp:122-140 | for every block size, block i is xored with the encryption of the counter plus i as one number through all its bytes, for any number of blocks, by the template or the per-block loop |
| `Ctr.SeekToIteration` | external/cryptopp/modes.cpp:105-115 | for every block size the counter becomes the register plus the number of blocks, so seeking agrees with stepping |
| `Ctr.LaneCounts` | external/cryptopp/adv-simd.h:326-371 | adding one in the top byte of a 64-bit lane counts that byte up and touches no other |
| `CmacSubkeys.MultipliedIsTimesX` | external/cryptopp/cmac.cpp:11-56 | the block left is x times the block found, modulo the listed polynomial, for blocks of 8, 16, 32, 64 and 128 bytes |
| `CmacSubkeys.RemainderUnique` | external/cryptopp/cmac.cpp:23-55 | there is only one such remainder |
| `CmacSubkeys.MultipliedCoefficient` | external/cryptopp/cmac.cpp:11-56 | each coefficient of the product is the one below it, flipped where the polynomial says so if the top one was set |
| `CmacSubkeys.ShiftUp` | external/cryptopp/cmac.cpp:13-21 | the array is doubled two bytes at a time, the first byte of an odd length left out, and the bit shifted out returned |
| `CmacSubkeys.Reduce` | external/cryptopp/cmac.cpp:25-54 | the low terms of the polynomial are xored in; fails exactly for other sizes |
| `CmacSubkeys.MulU` | external/cryptopp/cmac.cpp:11-56 | the array is shifted and reduced; an unsupported size fails exactly when there is something to reduce |
| `Cmac.CmacBase.Update` | external/cryptopp/cmac.cpp:73-116 | the bytes join those taken, at most one block of them waiting |
| `Cmac.UpdateAligned` | external/cryptopp/cmac.cpp:100-113 | all but the last one to blocksize bytes are chained and the rest waits in the register |
| `Cmac.FinalBlock` | external/cryptopp/cmac.cpp:125-131 | in every state the padded or full register, masked and enciphered, is the CMAC of everything taken |
| `Cmac.CmacCut` | external/cryptopp/cmac.cpp:118-137 | the MAC of whole blocks followed by a last block, whole or not, is the enciphered chain of the first with the masked last |
| `Cmac.FinalMac` | external/cryptopp/cmac.cpp:125-133 | a register that is not full is marked and masked by the second subkey, a full one by the first, and the MAC is cut to size |
| `Cmac.CmacBase.TruncatedFinal` | external/cryptopp/cmac.cpp:118-137 | the result is the one-shot CMAC of everything taken, cut to the size asked for, and the object starts over |
| `Cmac.SetKey` | external/cryptopp/cmac.cpp:58-71 | the subkeys are the enciphered zero block multiplied once and twice; fails exactly when a reduction is needed at an unsupported size |
| `Blake2.CountCarries` | external/cryptopp/blake2.cpp:415-421 | the wrapped low word is below the addend exactly when the high word must take a carry |
| `Blake2.CountReads` | external/cryptopp/blake2.cpp:415-421 | the low word plus the word range times the high word is the byte count modulo the square of the range, and the flags mark last block and last node |
| `Blake2.IncrementCounter` | external/cryptopp/blake2.cpp:415-421 | the two words stay the number of bytes modulo the square of the word range |
| `Blake2.ChainConcat` | external/cryptopp/blake2.cpp:357-388 | the chain over whole blocks continues over what follows, the count going on |
| `Blake2.CompressInput` | external/cryptopp/blake2.cpp:372-378 | whole blocks are compressed from the input as long as more than a block is left |
| `Blake2.LastBlock` | external/cryptopp/blake2.cpp:391-413 | the hash of everything taken is the compression of the waiting bytes, padded, with the total count and the flags |
| `Blake2.LayoutReadsBack` | external/cryptopp/blake2.cpp:409-410 | every bit of the words is in the bytes they are laid out as |
| `Blake2.Blake2Base.constructor` | external/cryptopp/blake2.cpp:233-316 | the key, padded to a block, has been taken; without a key nothing has |
| `Blake2.Blake2Base.Restart` | external/cryptopp/blake2.cpp:319-354 | the state is the initial one and the key block, if any, has been taken |
| `Blake2.Blake2Base.Update` | external/cryptopp/blake2.cpp:357-388 | the bytes join those taken; all but the last one to blocksize bytes have been compressed under their counts |
| `Blake2.Blake2Base.TruncatedFinal` | external/cryptopp/blake2.cpp:391-413 | the bytes are the eight words of the one-shot hash of key block and message, lowest byte first, cut to the size asked for; the object starts over; fails exactly for a size above the digest size |
| `Adler.Accumulate` | external/cryptopp/adler32.cpp:15-38 | up to eight bytes added without reduction stand for the true sums and keep both in bounds |
| `Adler.Reduce` | external/cryptopp/adler32.cpp:24-46 | one subtraction always reduces the first sum; both stand for the same true sums |
| `Adler.SecondSum` | external/cryptopp/adler32.cpp:8-54 | in closed form the second sum is the number of bytes plus every byte times the number of bytes from it on |
| `Adler.SinceNext` | external/cryptopp/adler32.cpp:29-47 | never more than 0x8000 bytes are added between reductions of the second sum |
| `Adler.TakeEights` | external/cryptopp/adler32.cpp:29-47 | reducing the second sum only every 0x8000 bytes keeps it below 2^32, and both are reduced at the end |
| `Adler.Adler32.Update` | external/cryptopp/adler32.cpp:8-54 | the sums stand for all data taken, in whatever cuts |
| `Adler.Adler32.TruncatedFinal` | external/cryptopp/adler32.cpp:56-80 | the bytes are those of the checksum by definition, cut to the size asked for |
| `CamelliaRound.MixOfBits` | external/cryptopp/camellia.cpp:29-57 | for single bits, the mixing steps of the slow round are the spreading of the fast one |
| `CamelliaRound.MixIsSpread` | external/cryptopp/camellia.cpp:29-57 | the same for all bytes |
| `CamelliaRound.SlowIsFast` | external/cryptopp/camellia.cpp:29-57 | both rounds give the same result whenever the large tables are made from the small one |
| `CamelliaKeys.StoreOne` | external/cryptopp/camellia.cpp:76-102 | storing through the computed address replaces subkey i, in either direction |
| `CamelliaKeys.HalvesRotate` | external/cryptopp/camellia.cpp:90-102 | for every quantity and every n below 128, the two shifted and combined words are the halves of its 128 bits rotated left by n |
| `CamelliaKeys.LastWriter` | external/cryptopp/camellia.cpp:124-197 | a position holds what the last step that writes it has left there |
| `CamelliaKeys.KsRound` | external/cryptopp/camellia.cpp:93-102 | a key-schedule step stores the rotated halves it is asked for, in either direction |
| `CamelliaKeys.PlaceAll` | external/cryptopp/camellia.cpp:124-197 | the steps of a schedule leave its subkeys |
| `CamelliaKeys.AllSettled` | external/cryptopp/camellia.cpp:124-197 | a schedule that writes every position leaves nothing of the memory it found |
| `CamelliaKeys.Covers128` | external/cryptopp/camellia.cpp:124-150 | the schedule of a 16-byte key writes every position |
| `CamelliaKeys.Covers256` | external/cryptopp/camellia.cpp:151-197 | so does that of a longer key |
| `CamelliaKeys.UncheckedSetKey` | external/cryptopp/camellia.cpp:69-198 | both directions place the same subkeys, decryption in the opposite order; which subkeys they are, `CamelliaRfc.ScheduleIsPublished` says |
| `Camellia.FLUndone` | external/cryptopp/camellia.cpp:204-208 | the two mixing functions undo each other under the same subkey |
| `Camellia.LayerUndone` | external/cryptopp/camellia.cpp:200-248 | every layer with its subkeys exchanged undoes itself on exchanged halves |
| `Camellia.RunBack` | external/cryptopp/camellia.cpp:200-248 | on mirrored subkeys the network takes back its own layers one by one |
| `Camellia.DecryptionUndoes` | external/cryptopp/camellia.cpp:200-248 | under every key of each length the decryption schedule undoes the encryption schedule on every block |
| `Camellia.ProcessBlock` | external/cryptopp/camellia.cpp:200-248 | the code, slow rounds at the ends and fast ones between, is that network |
| `Camellia.EncryptThenDecrypt` | external/cryptopp/camellia.cpp:69-248 | setting both keys, encrypting and decrypting returns the block |
| `CamelliaRfc.ByteRotations` | external/cryptopp/camellia.cpp:29-46 | the byte rotations are rotations of the eight bits by one and by seven |
| `CamelliaRfc.WordRotates` | external/cryptopp/camellia.cpp:204-208 | rotlConstant<1> rotates the 32 bits by one |
| `CamelliaRfc.WordLogic` | external/cryptopp/camellia.cpp:204-208 | and, or and exclusive or of words are taken bit by bit |
| `CamelliaRfc.RoundIsF` | external/cryptopp/camellia.cpp:29-57 | the rounds are the F-function of RFC 3713: eight lookups in four S-boxes and the linear layer, byte by byte |
| `CamelliaRfc.SourcesAreRfc` | external/cryptopp/camellia.cpp:124-197 | the quantities that are rotated are KL, KR, KA and KB of RFC 3713, with its constants |
| `CamelliaRfc.ScheduleIsPublished` | external/cryptopp/camellia.cpp:69-198 | under every key of each length every whitening, round and mixing layer finds the subkey that RFC 3713 names kw, k or ke: a half of KL, KR, KA or KB rotated by the published count |
| `CamelliaRfc.CryptIsCamellia` | external/cryptopp/camellia.cpp:69-248 | the network on that schedule is the encryption of RFC 3713, for every S-box, key and block |
| `CamelliaRfc.Encrypt` | external/cryptopp/camellia.cpp:69-248 | setting a key and processing a block gives that encryption |
| `Cast128.BackwardUndoes` | external/cryptopp/cast.cpp:36-93 | the rounds run backward undo the rounds run forward, for every number of rounds up to sixteen |
| `Cast128.RoundsAreFeistel` | external/cryptopp/cast.cpp:36-64 | the rounds are those of RFC 2144, with functions of type 1, 2 and 3 in the published turns, the halves exchanged after every other one |
| `Cast128.Encrypt` | external/cryptopp/cast.cpp:36-64 | twelve or sixteen rounds forward, halves exchanged |
| `Cast128.Decrypt` | external/cryptopp/cast.cpp:66-93 | the same rounds backward on exchanged halves |
| `Cast128.EncryptThenDecrypt` | external/cryptopp/cast.cpp:36-93 | decryption returns every block, in either number of rounds |
| `Cast256.QuadUndone` | external/cryptopp/cast.cpp:197-207 | a forward and a backward quad round on the same row undo each other |
| `Cast256.ForwardQuad` | external/cryptopp/cast.cpp:197-201 | four rounds from the third word on, each changing one word by the one after it |
| `Cast256.BackwardQuad` | external/cryptopp/cast.cpp:203-207 | the same four rounds from the last to the first |
| `Cast256.StirKappa` | external/cryptopp/cast.cpp:239-251 | the eight rounds over the words of the key, each from the word just changed |
| `Cast256.ProcessBlock` | external/cryptopp/cast.cpp:212-235 | six forward and six backward quad rounds are the network of twelve layers |
| `Cast256.RunBack` | external/cryptopp/cast.cpp:212-235 | on rows in the opposite order the network takes back its own layers one by one |
| `Cast256.FillRows` | external/cryptopp/cast.cpp:259-272 | the rows are those of the key schedule |
| `Cast256.RowPublished` | external/cryptopp/cast.cpp:259-272 | with the key words A to H after two octaves, a row is the five low bits of A, C, E and G and then H, F, D and B |
| `Cast256.UncheckedSetKey` | external/cryptopp/cast.cpp:253-290 | the rows are those of the key schedule, for decryption in the opposite order |
| `Cast256.EncryptThenDecrypt` | external/cryptopp/cast.cpp:197-290 | under every key decryption returns every block |
| `Blowfish.ReversedUndoes` | external/cryptopp/blowfish.cpp:71-97 | the network on reversed subkeys undoes it, for any boxes |
| `Blowfish.RunBack` | external/cryptopp/blowfish.cpp:71-97 | on reversed subkeys the network takes back its own rounds one by one |
| `Blowfish.CryptBlock` | external/cryptopp/blowfish.cpp:44-97 | the loop is that network |
| `Blowfish.XorKey` | external/cryptopp/blowfish.cpp:20-26 | the key bytes, repeated as often as needed, are xored into the subkeys |
| `Blowfish.MakeSubkeys` | external/cryptopp/blowfish.cpp:28-31 | each pair of subkeys is enciphered under the subkeys as they then are |
| `Blowfish.SubkeysPublished` | external/cryptopp/blowfish.cpp:28-31 | in the end each pair of subkeys is the pair before it, or zeros, enciphered under the subkeys of which only those before the pair are replaced |
| `Blowfish.Reverse` | external/cryptopp/blowfish.cpp:38-40 | the swaps reverse the subkeys |
| `Blowfish.MakeBoxes` | external/cryptopp/blowfish.cpp:33-36 | each pair of box entries is the pair before it enciphered with the boxes as they then are |
| `Blowfish.BoxesPublished` | external/cryptopp/blowfish.cpp:33-36 | in the end each pair of box entries is the pair before it, or the last two subkeys, enciphered with the boxes of which only the entries before the pair are replaced |
| `Blowfish.UncheckedSetKey` | external/cryptopp/blowfish.cpp:9-41 | both directions make the same subkeys and boxes, decryption reverses the subkeys |
| `Blowfish.EncryptThenDecrypt` | external/cryptopp/blowfish.cpp:9-97 | under every key decryption returns every block |
| `HexNumbers.FromIToHex` | external/cpp-httplib/httplib.h:1013-1022 | prints the hexadecimal digits, at least one |
| `HexNumbers.StoiOfDigits` | external/cpp-httplib/httplib.h:881-903 | hexadecimal digits parse to their value up to the first other character, or throw beyond an int |
| `HexNumbers.StoiOfHex` | external/cpp-httplib/httplib.h:881-903 | a printed size with its line end reads back as itself if it is an int, and throws otherwise |
| `HexSizes.StoiIgnoresCase` | external/cpp-httplib/httplib.h:881-903 | reading a size does not depend on the case of letters |
| `HexSizes.StoiReads` | external/cpp-httplib/httplib.h:881-903 | spaces, a sign, a 0x prefix and digits in either case read as the digits' value, negated by a minus, or throw beyond an int; what follows is ignored |
| `HexSizes.StoiReadsOnlyNumerals` | external/cpp-httplib/httplib.h:881-903 | whatever reads as a number has that form |
| `HexSizes.IntRange` | external/cpp-httplib/httplib.h:881-903 | a number is in range exactly from -2^31 to 2^31 - 1 |
| `Chunked.LineReader.Append` | external/cpp-httplib/httplib.h:462-473 | the line grows by a character, in the fixed buffer with a null behind it while it fits, else in the growing one |
| `Chunked.LineReader.Shown` | external/cpp-httplib/httplib.h:425-431 | as a C string, ptr() shows the line in whichever buffer holds it |
| `Chunked.LineReader.GetLine` | external/cpp-httplib/httplib.h:425-459 | as a C string, what ptr() shows is the bytes up to the first newline, and the stream stands behind them; on a sound stream it fails only at the end |
| `Chunked.ReadContentWithLength` | external/cpp-httplib/httplib.h:832-852 | reads exactly that many bytes whatever the reads return; on a sound stream it fails only when they are not there |
| `Chunked.ReadContentChunked` | external/cpp-httplib/httplib.h:870-913 | the outcome depends on the contents of a sound stream alone, not on how reads portion it: body and rest, a refusal, or an exception |
| `Chunked.WriteChunks` | external/cpp-httplib/httplib.h:1724-1738 | what has been written is a prefix of the frames of the callback's chunks and of the empty one that ends them, and all of it if no write fails |
| `Chunked.ReadsBack` | external/cpp-httplib/httplib.h:870-913 | the frames read back as the joined chunks, and reading stops right behind them, if every size is an int; otherwise it throws |
| `ChunkGrammar.ReadsWellFormed` | external/cpp-httplib/httplib.h:870-913 | every well-formed text is read to its end and no further, with the body of its pieces or an exception |
| `ChunkGrammar.AcceptsExactly` | external/cpp-httplib/httplib.h:870-913 | the reader accepts with a body and a rest if and only if the text is size lines with chunks of those sizes and line ends, followed by a terminator, a negative size, or a chunk with another line after it, and then that rest |
| `ChunkGrammar.ThrowsExactly` | external/cpp-httplib/httplib.h:870-913 | it throws if and only if after such pieces comes a line that is no size |
| `ChunkGrammar.LosesChunk` | external/cpp-httplib/httplib.h:893-894 | a chunk with another line after it is lost and the body before it accepted |
| `Chunked.Exchange` | external/cpp-httplib/httplib.h:1724-1738 | written and read through a sound stream, the body is the joined chunks and the tail is left if every size is an int; otherwise reading throws |

## Left out

- The node's own sources under `src/`: the model is of the libraries below them.
- The interface headers under `include/`, the terminal library, and sockets, SSL, threads, routing, compression and file serving in `httplib.h`: interfaces, input and output.
- The other vendored libraries (`rocksdb`, `miniupnpc`, the JSON and option parsers).
- `BlumBlumShub.Exponentiate`: uses the plain modular group, Montgomery arithmetic is not modelled; the exponent that `Seek` computes with `a_exp_b_mod_c` is taken as that power of two reduced.
- `Window.WindowSlider.FindNextWindow`: positions are unbounded integers, the wrap of a 32-bit position is not modelled.
- `CcmProtocol.CcmCipher.ProcessData`: the wrap of the 64-bit running totals is not modelled.
- `CcmProtocol.CcmCipher.TruncatedFinal`: tag sizes above the block size, for which the source reads beyond its buffer, are not modelled.
- `DerReencode.DERReencode`: what a failed call leaves in the destination is not stated; destructors in the source may flush part of it.
- `DerReencode.ReencodeElement`: inputs of 2^62 bytes and more, whose definite form might not fit a 64-bit length, are not modelled.
- `EncodedObjectFilter`, strings, dates and bit strings in `asn.cpp`: not part of this model.
- `BaseNEncoder.Encoder.Put2`: the non-blocking resumption of the filters is not modelled, only the blocking case.
- `BatchedBlocks.AdvancedProcessBlocks128`: memory is an array of blocks, so buffers that overlap by part of a block are not modelled, nor is a backward call whose length is not a multiple of the block size; the other batching templates of `adv-simd.h` are left out.
- `Ctr.OperateKeystream`: the vector addition of the batch is taken in its little-endian layout.
- `Blake2.Blake2Base.Restart`: a caller's own parameter block and counter are not modelled, only the object's own.
- `Blake2.Blake2Base.TruncatedFinal`: the words are laid out as on a little-endian machine.
- `Cmac.SetKey`: the register and the two subkeys are three buffers here and one in the source.
- `CamelliaKeys.UncheckedSetKey`: the little-endian layout of the subkeys is modelled, 64-bit words are pairs of 32-bit words, and the sequence of stores is a table.
- `Camellia.ProcessBlock`: the final exclusive or with a caller's block and the reads that warm the cache are not modelled.
- `Cast128.Encrypt`: the subkeys are arbitrary, their schedule is not modelled.
- `Chunked.WriteChunks`: a write that reports success after taking only part of its bytes, which the loop does not notice, is not modelled.
- SIMD code, CRC, ARC4, ChaCha, ARIA, 3-Way, CBC-MAC and ciphertext stealing: easier siblings or fixed bit mixing.
- Constant tables (`casts.cpp`, `bfinit.cpp`, S-boxes) are arguments or hypotheses, their entries are not checked.
- The rest of `external/cryptopp`: public-key schemes, other ciphers and hashes, random number generators and so on.
