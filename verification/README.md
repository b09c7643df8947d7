# A verified model of the Kyber accelerator software, the CoreMark list and the ELF writer

Three independent parts of the repository, modelled in Dafny and proved.

**Kyber / ML-KEM with the transform accelerator** (`benchmarks/kyber/ref`). The code-level modules work on
`int16` arrays with every wrap of the C code written out; the specification modules work on canonical residues
modulo q. `Reduce`, `Zetas`, `NttSpec`, `RingProduct`, `Linear` and `Vectors` say what the transforms compute and
why products may be taken on them; `NttCode`, `Poly`, `Polyvec` are the in-place code, and `Transforms` runs it.
`Accelerator` models the memory-mapped unit as a state machine that makes any number of steps between two bus
accesses, and the driver on top of it. `Compress`, `Packing`, `Digits`, `Serialize`, `VectorBytes`, `Message` cover
the byte formats: a packed string and the values in it are the same integer in two bases. `Noise` and `Matrix` cover
sampling. `KPke` is the encryption scheme as functions on byte strings (FIPS 203, section 5) with the decryption
theorem; `Indcpa` and `Kem` are the code, proved to produce exactly those bytes. `Keccak` and `Sponge` are the
permutation and the hashes, `KeccakBits` says what the permutation does to each bit, and `SymmetricShake` is what the scheme takes from them. K is a parameter in {2, 3, 4}:
`params.h` sets 4 while the top-level README speaks of the 768 variant.

**CoreMark list** (`core_list_join.c`). `StableSort` says what a pass over a sequence does; `CoreCells` has the cells
and the comparison functions, which write to the data they compare; `CoreList` is the code that relinks the cells. A
comparison that computes values while the sort goes on is handled by keeping every statement true for all keys that
agree with its answers so far.

**ELF writer** (`elfio`). `ElfSymbols` is the arrangement of the symbol table with its relocations, `ElfSegments`
the order of the segments, `ElfPlaces` and `ElfRun` the places that sections can have and how they follow from the
records, `ElfLayout` the code of the file layout, in 64-bit arithmetic.

`dafny verify dfyconfig.toml` checks everything.

## Reading the contracts

- Code-level methods relate `Canon(r[..])`, the residues of an array, before and after; `Within` bounds the
  representatives. Sums and differences of coefficients are stored in `int16` as they stand, without a conversion;
  it is a subset type, so none of them overflows. Where the C code wraps on purpose (the reductions, message bits,
  words read from the unit) the conversion is written out.
- The hash functions are parameters of `KPke`, `Indcpa` and `Kem` (`Symmetric`): any functions will do.
  `SymmetricShake.KYBER` is the instance that the repository uses; the code computes each of its five functions.
- Two preconditions are liveness assumptions of the source itself. `Samplable`: the matrix streams contain enough
  values below q, otherwise the refill loop does not end. `Ready(dev, n)`: the unit is at rest and none of the next n
  calls hits the poll limit, n being the number of calls the method makes; `Accelerator.Drive` states what a call does
  without that assumption.
- Bytes or-ed together with disjoint bits are written as sums in `Packing` and `Matrix`, where the operands are
  integers.

## Where the code and its documentation differ

- `poly_ntt_change.c:31` calls the reduction after the unit a no-op and `poly_ntt_patch.c:29-30` says that it
  clamps to [0, q-1]. It centres: `Accelerator.ReductionOfWord` says exactly which words change.
- The comment in `reduce.c` gives a range for `montgomery_reduce`. Transforms that are multiplied without a reduction
  leave it; `Reduce.FqMul` shows that every product of two int16 values may be reduced, with a larger bound.
- A message bit is taken from the raw coefficient without making it non-negative first. `Compress.Compress1Exact`
  shows that this is right for every value in (-q, q) but one, which no reduced polynomial contains.
- After a poll time-out the driver reads whatever DATA_OUT holds and reports nothing: `Accelerator.OutputOfCall`
  and `Accelerator.BusyCall` say what the caller then gets.
- Rewriting a relocation cuts a 64-bit type to one byte and a 32-bit symbol index to 24 bits:
  `ElfSymbols.StoredType` and `ElfSymbols.StoredIndex` give the exact conditions.
- The comment at `elfio.hpp:803-804` says that the test before it prevents seeking backwards. It does not when the
  distance from the segment wraps: `ElfPlaces.PlacedBackwards` has the exact condition and `ElfPlaces.OneByteBelow` an
  input; `ElfLayout.Image.Room` is a bound that excludes it.
- Section 0 is laid out but never given an offset (`elfio.hpp:705` and `852`), so `ElfLayout` claims nothing about
  contents of section 0.

## Model

| member | source | states |
|---|---|---|
| Reduce.MontgomeryReduce | chromite_with_speedup_nodma/chromite/benchmarks/kyber/ref/reduce.c:16-23 | Wherever `a - t*q` is an int32 the quotient is exact, 2^16 times the result is congruent to the argument and differs from it by q*2^15 at most; in the documented range the result lies in (-q, q). The int16 wrap of the low half is written out. |
| Reduce.FqMul | chromite_with_speedup_nodma/chromite/benchmarks/kyber/ref/ntt.c:68-70 | The Montgomery product of any two int16 values: congruent to a*b*2^-16, in size at most the size of a*b plus q*2^15, divided by 2^16, and in (-q, q) when the product is in the documented range. |
| Reduce.BarrettReduce | chromite_with_speedup_nodma/chromite/benchmarks/kyber/ref/reduce.c:35-42 | For every int16, including those for which `t *= KYBER_Q` wraps, the result is the centred representative of the same residue. |
| Zetas.TableIsPower | chromite_with_speedup_nodma/chromite/benchmarks/kyber/ref/ntt.c:39-56 | Every table entry is 17^bitrev7(k) times 2^16 modulo q. |
| Zetas.ZetaSquare | chromite_with_speedup_nodma/chromite/benchmarks/kyber/ref/ntt.c:80-95 | The twiddle of a node is a square root of the modulus root that the node splits, at every level of the tree. |
| Zetas.ZetaMirror | chromite_with_speedup_nodma/chromite/benchmarks/kyber/ref/ntt.c:106-126 | In every layer the twiddle met on the way back is minus the inverse of the one used on the way forth. |
| NttSpec.NttDownMeaning | chromite_with_speedup_nodma/chromite/benchmarks/kyber/ref/ntt.c:80-95 | After the stages down to any block size, each block holds the input modulo X^size minus the root of its tree node. |
| NttSpec.NttMeaning | chromite_with_speedup_nodma/chromite/benchmarks/kyber/ref/ntt.c:80-95 | At the end coefficient i is coefficient i mod 2 of the input modulo X^2 - 17^(2 bitrev7(i/2) + 1). |
| NttSpec.InvNttOfNtt | chromite_with_speedup_nodma/chromite/benchmarks/kyber/ref/ntt.c:106-126 | On residues, the inverse transform undoes the transform on every polynomial; `Transforms.NttThenInvNtt` is the round trip of the int16 code. |
| NttSpec.NttOfInvNtt | chromite_with_speedup_nodma/chromite/benchmarks/kyber/ref/ntt.c:106-126 | The transform undoes the inverse transform, so the two are a bijection. |
| RingProduct.NttOfProduct | chromite_with_speedup_nodma/chromite/benchmarks/kyber/ref/ntt.c:139-146 | The transform of a product in Z_q[X]/(X^256+1) is the pairwise product of the transforms. |
| RingProduct.ProductByTransforms | chromite_with_speedup_nodma/chromite/benchmarks/kyber/ref/ntt.c:139-146 | Transforming, multiplying pairs modulo X^2 - gamma and transforming back is multiplication in the ring. |
| Linear.ProductOfCode | chromite_with_speedup_nodma/chromite/benchmarks/kyber/ref/poly.c:280-301 | On residues, with the factors the code leaves (2^-16 from basemul, 2^16 from invntt) the result is exactly the ring product; `Transforms.Multiply` is the int16 code. |
| Linear.MontgomeryCancels | chromite_with_speedup_nodma/chromite/benchmarks/kyber/ref/poly.c:280-317 | The factors 2^-16 and 2^16 cancel, before and through the inverse transform. |
| Linear.NttAdd | chromite_with_speedup_nodma/chromite/benchmarks/kyber/ref/ntt.c:80-95 | The transform is additive. |
| Linear.PairMulAssoc | chromite_with_speedup_nodma/chromite/benchmarks/kyber/ref/ntt.c:139-146 | The pairwise product is associative for the actual leaf roots. |
| Vectors.DotOfTranspose | chromite_with_speedup_nodma/chromite/benchmarks/kyber/ref/indcpa.c:165-190 | (A f) . g == f . (A^T g): why encrypting with the transposed matrix matches the key. |
| Vectors.NttOfRingDot | chromite_with_speedup_nodma/chromite/benchmarks/kyber/ref/polyvec.c:202-214 | An inner product of transforms is the transform of the sum of ring products. |
| NttCode.NttStage | chromite_with_speedup_nodma/chromite/benchmarks/kyber/ref/ntt.c:85-94 | One stage over the int16 array, block by block with the running table index, is one plain Cooley-Tukey layer on the residues; values grow by the size of one Montgomery product, and sums and differences over the butterflies stay below twice the old bound and twice that size; the index ends where the next stage needs it. |
| NttCode.NttInPlace | chromite_with_speedup_nodma/chromite/benchmarks/kyber/ref/ntt.c:80-95 | The residues become the transform, for every input bound whose growth over the seven stages stays below 2^15; no int16 sum overflows, and the sums over the last butterflies are bounded more tightly than the values. |
| NttCode.GrowthFromQ | chromite_with_speedup_nodma/chromite/benchmarks/kyber/ref/ntt.c:80-95 | Inputs below q in absolute value give outputs of 16540 at most, within the 8(q-1) that is commonly assumed. |
| NttCode.InvNttStage | chromite_with_speedup_nodma/chromite/benchmarks/kyber/ref/ntt.c:112-121 | One inverse stage with the table read backwards, on every array whose sums and differences over the butterflies fit int16; results below q in absolute value. |
| NttCode.InvNttInPlace | chromite_with_speedup_nodma/chromite/benchmarks/kyber/ref/ntt.c:106-126 | The residues become 2^16 times the inverse transform, for every array on which no sum or difference of the first stage leaves int16; results below q in absolute value. |
| Transforms.NttThenInvNtt | chromite_with_speedup_nodma/chromite/benchmarks/kyber/ref/ntt.c:80-126 | ntt and then invntt, with no reduction in between, is multiplication by 2^16 for all coefficients below q in absolute value (and up to 4942). |
| Transforms.Multiply | chromite_with_speedup_nodma/chromite/benchmarks/kyber/ref/poly.c:294-301 | ntt on both factors, basemul on the unreduced results and invntt give the product in Z_q[X]/(X^256+1), with no power of 2^16 left over, for all coefficients below q in absolute value. |
| Poly.BaseMul | chromite_with_speedup_nodma/chromite/benchmarks/kyber/ref/ntt.c:139-146 | A pair of outputs holds 2^-16 times the product modulo X^2 - gamma, for factors up to those that unreduced transforms leave; neither sum leaves int16, and the other coefficients are untouched. |
| Poly.BaseMulMontgomery | chromite_with_speedup_nodma/chromite/benchmarks/kyber/ref/poly.c:294-301 | With twiddles zetas[64+i] and -zetas[64+i] the 64 double steps compute 2^-16 times the product of the transforms, reduced or not. |
| Poly.ToMont | chromite_with_speedup_nodma/chromite/benchmarks/kyber/ref/poly.c:311-317 | Multiplies every residue by 2^16; results below q in absolute value. |
| Poly.ReduceCoefficients | chromite_with_speedup_nodma/chromite/benchmarks/kyber/ref/poly.c:327-332 | Same residues, centred representatives. |
| Poly.Add | chromite_with_speedup_nodma/chromite/benchmarks/kyber/ref/poly.c:343-348 | Residues add, bounds add, no int16 overflow; the result may replace an operand. |
| Poly.Sub | chromite_with_speedup_nodma/chromite/benchmarks/kyber/ref/poly.c:359-364 | Residues subtract, bounds add, no int16 overflow. |
| Accelerator.ControlOutcome | README.md:133-136 | An accepted START completes after work + 2 steps and not earlier, with the transform of the operands present when it was sent; one sent while a transform is under way changes nothing the unit will ever do; a stop keeps the result and does not stop a transform. |
| Accelerator.Device.ReadControl | README.md:124-131 | Bit 3 is set exactly when the unit is done, bit 2 exactly while a transform is under way. |
| Accelerator.LoadedAtRest | chromite_with_speedup_nodma/chromite/benchmarks/kyber/ref/ntt_kyber_hw.c:149-153 | Words written to a unit at rest arrive in DATA_IN, each at its place, whatever the unit does in between. |
| Accelerator.PollsSeeDone | chromite_with_speedup_nodma/chromite/benchmarks/kyber/ref/ntt_kyber_hw.c:225-228 | Polling ends with DONE if and only if the steps the unit makes during the allowed polls finish its transform. |
| Accelerator.OutputOfCall | chromite_with_speedup_nodma/chromite/benchmarks/kyber/ref/ntt_kyber_hw.c:197-240 | For every pace of the unit, each word returned comes from the call's own transform if that is complete when the word is read, and from the previous result otherwise. |
| Accelerator.PromptCall | chromite_with_speedup_nodma/chromite/benchmarks/kyber/ref/ntt_kyber_hw.c:197-240 | If the poll limit is not hit the call returns the transform of its own words, the unit completes exactly one operation and is left idle. |
| Accelerator.BusyCall | chromite_with_speedup_nodma/chromite/benchmarks/kyber/ref/ntt_kyber_hw.c:197-240 | A START sent while an earlier, timed-out transform still runs is ignored: the call returns that transform or an older result. |
| Accelerator.WordsAreResidues | chromite_with_speedup_nodma/chromite/benchmarks/kyber/ref/ntt_kyber_hw.c:141-144 | For coefficients in [-q, q-1] the words sent are the canonical residues. |
| Accelerator.PackDataIn | chromite_with_speedup_nodma/chromite/benchmarks/kyber/ref/ntt_kyber_hw.c:134-160 | The 16 bursts of 16 write every DATA_IN word once and in order. |
| Accelerator.PollDone | chromite_with_speedup_nodma/chromite/benchmarks/kyber/ref/ntt_kyber_hw.c:224-228 | The polling loop makes exactly the specified number of reads: it ends when DONE is seen or after exactly 2,000,000. |
| Accelerator.UnpackDataOut | chromite_with_speedup_nodma/chromite/benchmarks/kyber/ref/ntt_kyber_hw.c:168-189 | Coefficient i is what DATA_OUT[i] holds at read i, truncated to 16 bits. |
| Accelerator.Drive | chromite_with_speedup_nodma/chromite/benchmarks/kyber/ref/ntt_kyber_hw.c:197-240 | The whole call, from any state of the unit and for any pace, including time-outs: coefficients, final state of the unit, and the number of bus accesses. |
| Accelerator.RunOfCalls | chromite_with_speedup_nodma/chromite/benchmarks/kyber/ref/ntt_kyber_hw.c:197-240 | In every run of calls on a unit at rest of which none hits the poll limit, each call returns the transform of its own input, the unit completes one operation per call and is at rest at the end. Nothing is asked of its pace elsewhere. |
| Accelerator.PromptIsDone | chromite_with_speedup_nodma/chromite/benchmarks/kyber/ref/ntt_kyber_hw.c:225-228 | A call does not hit the poll limit exactly when the steps the unit makes during the allowed polls finish its transform. |
| Accelerator.DriveReady | chromite_with_speedup_nodma/chromite/benchmarks/kyber/ref/ntt_kyber_hw.c:197-240 | On a unit at rest, if this call does not hit the poll limit: the coefficients become the transform of the residues of the input, and the unit is at rest for the next call. |
| Accelerator.PolyNtt | chromite_with_speedup_nodma/chromite/benchmarks/kyber/ref/poly.c:263-269 | The accelerator path leaves the centred representatives of the transform. |
| Accelerator.PolyNttSoftware | chromite_with_speedup_nodma/chromite/benchmarks/kyber/ref/poly_ntt_change.c:12-16 | The Montgomery transform that was replaced leaves the same array, coefficient for coefficient. |
| Accelerator.ReductionOfWord | chromite_with_speedup_nodma/chromite/benchmarks/kyber/ref/poly_ntt_change.c:28-32 | The reduction after the unit changes exactly the words above (q-1)/2, so it is not the identity that the comment calls it. |
| Compress.Compress4Correct | chromite_with_speedup_nodma/chromite/benchmarks/kyber/ref/poly.c:36-40 | The multiply-and-shift form with 4 bits equals round(2^4 x / q) mod 2^4 for every residue, despite the uint32 wrap. |
| Compress.Compress5Correct | chromite_with_speedup_nodma/chromite/benchmarks/kyber/ref/poly.c:56-60 | The multiply-and-shift form with 5 bits equals round(2^5 x / q) mod 2^5 for every residue, despite the uint32 wrap. |
| Compress.Compress10Correct | chromite_with_speedup_nodma/chromite/benchmarks/kyber/ref/polyvec.c:54-63 | The multiply-and-shift form with 10 bits equals round(2^10 x / q) mod 2^10 for every residue. |
| Compress.Compress11Correct | chromite_with_speedup_nodma/chromite/benchmarks/kyber/ref/polyvec.c:24-33 | The multiply-and-shift form with 11 bits equals round(2^11 x / q) mod 2^11 for every residue. |
| Compress.Compress1Exact | chromite_with_speedup_nodma/chromite/benchmarks/kyber/ref/poly.c:200-211 | The message bit computed from a raw, possibly negative coefficient in (-q, q) is the compressed bit of its residue if and only if the coefficient is not -2497. |
| Compress.CompressIsNearest | chromite_with_speedup_nodma/chromite/benchmarks/kyber/ref/poly.c:38-41 | Compression is rounding to the nearest integer; ties cannot occur. |
| Compress.DecompressIsNearest | chromite_with_speedup_nodma/chromite/benchmarks/kyber/ref/poly.c:92-93 | Decompression is rounding to a nearest integer. |
| Compress.CompressOfDecompress | chromite_with_speedup_nodma/chromite/benchmarks/kyber/ref/polyvec.c:89-128 | Compressing a decompressed value gives it back, for every width. |
| Compress.DecompressOfCompress | chromite_with_speedup_nodma/chromite/benchmarks/kyber/ref/polyvec.c:89-128 | Decompressing a compressed coefficient moves it by at most round(q / 2^(d+1)) around the circle. |
| Packing.Pack11Value | chromite_with_speedup_nodma/chromite/benchmarks/kyber/ref/polyvec.c:36-46 | The eleven bytes written for eight 11-bit values are the same integer. |
| Packing.Unpack11Value | chromite_with_speedup_nodma/chromite/benchmarks/kyber/ref/polyvec.c:99-106 | The eight 11-bit values read from eleven bytes are the same integer. |
| Serialize.CompressToBytes | chromite_with_speedup_nodma/chromite/benchmarks/kyber/ref/poly.c:21-73 | All four widths: the bytes written are the FIPS 203 encoding of the compressed coefficients, and nothing else is written. |
| Serialize.DecompressFromBytes | chromite_with_speedup_nodma/chromite/benchmarks/kyber/ref/poly.c:85-115 | All four widths: the coefficients are the decompressed values of the FIPS 203 decoding. |
| Serialize.ToBytes | chromite_with_speedup_nodma/chromite/benchmarks/kyber/ref/poly.c:126-141 | 384 bytes holding the canonical residues, 12 bits each. |
| Serialize.FromBytes | chromite_with_speedup_nodma/chromite/benchmarks/kyber/ref/poly.c:153-160 | The 12-bit fields, values up to 4095 included. |
| VectorBytes.BytesRestored | chromite_with_speedup_nodma/chromite/benchmarks/kyber/ref/polyvec.c:15-128 | Compressing and packing a decompressed byte string restores it, whatever its bytes. |
| VectorBytes.EncodedEntry | chromite_with_speedup_nodma/chromite/benchmarks/kyber/ref/polyvec.c:139-146 | Entry i of an encoded vector is the encoding of polynomial i. |
| VectorBytes.DecodeVecOfEncodeVec | chromite_with_speedup_nodma/chromite/benchmarks/kyber/ref/polyvec.c:139-161 | Reading back an encoded vector gives the vector. |
| Message.FromMessage | chromite_with_speedup_nodma/chromite/benchmarks/kyber/ref/poly.c:170-184 | Coefficient 8i+j is (q+1)/2 or 0 by bit j of byte i. |
| Message.ToMessage | chromite_with_speedup_nodma/chromite/benchmarks/kyber/ref/poly.c:194-213 | For any coefficients the bytes are the encoding of the raw bits; for centred coefficients those are the coefficients compressed to one bit. |
| Message.RawBitsExact | chromite_with_speedup_nodma/chromite/benchmarks/kyber/ref/poly.c:194-213 | For coefficients between -q and q the raw bits are the compressed residues if and only if -2497 does not occur. |
| Verify.VerifyBytes | chromite_with_speedup_nodma/chromite/benchmarks/kyber/ref/verify.c:16-25 | 0 if the bytes agree, 1 otherwise. |
| Verify.Cmov | chromite_with_speedup_nodma/chromite/benchmarks/kyber/ref/verify.c:40-57 | With b = 1 the bytes are copied, with b = 0 nothing changes. |
| Verify.CmovInt16 | chromite_with_speedup_nodma/chromite/benchmarks/kyber/ref/verify.c:71-75 | Selects v for b = 1 and r for b = 0, on signed 16-bit patterns. |
| Noise.MaskValues | chromite_with_speedup_nodma/chromite/benchmarks/kyber/ref/cbd.c:63-64 | The masks of the model are the constants of the source. |
| Noise.CountsRange | chromite_with_speedup_nodma/chromite/benchmarks/kyber/ref/cbd.c:62-64 | The sum of the masked shifts never carries from one field into the next. |
| Noise.CountsAreSums | chromite_with_speedup_nodma/chromite/benchmarks/kyber/ref/cbd.c:62-72 | Field k of that sum counts the ones among bits eta*k to eta*k + eta - 1 of the word. |
| Noise.NoiseRange | chromite_with_speedup_nodma/chromite/benchmarks/kyber/ref/cbd.c:58-107 | Every coefficient lies in [-eta, eta]. |
| Noise.CentredBinomial | chromite_with_speedup_nodma/chromite/benchmarks/kyber/ref/cbd.c:58-107 | For eta 2 and 3: coefficient i is the number of ones in its first eta bits minus that in the next eta bits of the byte string. |
| Noise.NoiseIsBinomial | chromite_with_speedup_nodma/chromite/benchmarks/kyber/ref/cbd.c:58-107 | The coefficient in terms of the bits of the bytes themselves: four bits for eta = 2, six for eta = 3. |
| Matrix.AcceptConcat | chromite_with_speedup_nodma/chromite/benchmarks/kyber/ref/indcpa.c:121-142 | Strings of whole triples can be read separately, which is why block boundaries do not matter. |
| Matrix.CandidatesOfBytes | chromite_with_speedup_nodma/chromite/benchmarks/kyber/ref/indcpa.c:131-132 | Three bytes and their two candidates are digits of the same integer, in base 256 and in base 4096. |
| Matrix.AcceptIsBelow | chromite_with_speedup_nodma/chromite/benchmarks/kyber/ref/indcpa.c:121-142 | For every string of whole triples: what is accepted are exactly the values below q, in order, of its reading in base 4096. |
| Matrix.RejectionSample | chromite_with_speedup_nodma/chromite/benchmarks/kyber/ref/indcpa.c:121-142 | Stores the accepted 12-bit values of the buffer as far as there is room, and returns their number. |
| Matrix.EnoughIsEnough | chromite_with_speedup_nodma/chromite/benchmarks/kyber/ref/indcpa.c:173-188 | Every sufficient prefix of the stream gives the same 256 values. |
| Matrix.SampleEntry | chromite_with_speedup_nodma/chromite/benchmarks/kyber/ref/indcpa.c:173-188 | When the refill loop ends the polynomial is exactly the first 256 values below q in the 12-bit reading of the whole stream. |
| Indcpa.GenMatrix | chromite_with_speedup_nodma/chromite/benchmarks/kyber/ref/indcpa.c:165-190 | The matrix, or exactly its transpose, of the sampled polynomials. |
| Polyvec.VecNtt | chromite_with_speedup_nodma/chromite/benchmarks/kyber/ref/polyvec.c:170-175 | Every entry through the accelerator: transforms of the residues, centred; only these calls need to beat the poll limit. |
| Polyvec.VecInvNtt | chromite_with_speedup_nodma/chromite/benchmarks/kyber/ref/polyvec.c:185-190 | Every entry becomes 2^16 times its inverse transform. |
| Polyvec.BaseMulAccumulate | chromite_with_speedup_nodma/chromite/benchmarks/kyber/ref/polyvec.c:202-214 | 2^-16 times the inner product, for as many entries as the bounds on the products add up to less than 2^15: four for reduced factors, fewer for larger ones. |
| Polyvec.VecAdd | chromite_with_speedup_nodma/chromite/benchmarks/kyber/ref/polyvec.c:241-246 | Entries add; the result may be an operand or a third vector. |
| Polyvec.VecCompress | chromite_with_speedup_nodma/chromite/benchmarks/kyber/ref/polyvec.c:15-77 | The concatenated encodings of the compressed entries. |
| Polyvec.VecDecompress | chromite_with_speedup_nodma/chromite/benchmarks/kyber/ref/polyvec.c:89-128 | The decompressed entries of the decoding. |
| Polyvec.VecToBytes | chromite_with_speedup_nodma/chromite/benchmarks/kyber/ref/polyvec.c:139-144 | The concatenated 12-bit encodings of the entries. |
| Polyvec.VecFromBytes | chromite_with_speedup_nodma/chromite/benchmarks/kyber/ref/polyvec.c:156-161 | The 12-bit fields of each entry. |
| KPke.DecryptionIdentity | chromite_with_speedup_nodma/chromite/benchmarks/kyber/ref/indcpa.c:283-298 | What decryption rounds is the message polynomial plus e.y + e2 + c_v - s.(e1 + c_u): every product with the matrix cancels. |
| KPke.PartsUnderKey | chromite_with_speedup_nodma/chromite/benchmarks/kyber/ref/indcpa.c:271-294 | A ciphertext under a generated key uses that key's public vector and matrix, read back from its bytes. |
| KPke.CipherReadBack | chromite_with_speedup_nodma/chromite/benchmarks/kyber/ref/indcpa.c:86-106 | The decryptor reads u + c_u and v + c_v, where c_u and c_v are the compression errors. |
| KPke.BitSurvives | chromite_with_speedup_nodma/chromite/benchmarks/kyber/ref/poly.c:194-213 | A message bit survives a noise coefficient if and only if the centred noise lies in [-832, 832 - bit]. |
| KPke.DecryptOfEncrypt | chromite_with_speedup_nodma/chromite/benchmarks/kyber/ref/indcpa.c:165-332 | For every seed, message and coins, and for K = 2, 3, 4: decryption of the encryption returns the message if and only if every noise coefficient is harmless to its bit. |
| KPke.NoiseForEveryMessage | chromite_with_speedup_nodma/chromite/benchmarks/kyber/ref/indcpa.c:314-332 | Noise is harmless to every message if and only if all its centred coefficients lie in [-832, 831]. |
| KPke.ParameterSets | chromite_with_speedup_nodma/chromite/benchmarks/kyber/ref/params.h:29-43 | eta1, du, dv and the ciphertext sizes of the three parameter sets. |
| KPke.KeyFromStreams | chromite_with_speedup_nodma/chromite/benchmarks/kyber/ref/indcpa.c:216-246 | For every matrix seed and noise seed that G puts out and all byte strings that are the streams for nonces 0 to 2k - 1: the keys are made from the binomial polynomials of exactly these strings, the first k for the secret and the others for the error. |
| KPke.CipherFromStreams | chromite_with_speedup_nodma/chromite/benchmarks/kyber/ref/indcpa.c:270-301 | For all byte strings that are the streams of the coins: nonces 0 to k - 1 give y, k to 2k - 1 give e1 and 2k gives e2. |
| KPke.PartsEncoded | chromite_with_speedup_nodma/chromite/benchmarks/kyber/ref/indcpa.c:86-90 | A ciphertext is the compressed first part, encoded, followed by the compressed second part, encoded. |
| Indcpa.KeypairDerand | chromite_with_speedup_nodma/chromite/benchmarks/kyber/ref/indcpa.c:205-241 | The buffers hold exactly the specified public and secret key; all Montgomery factors have cancelled and no int16 sum overflows; 2k calls of the unit. |
| Indcpa.Enc | chromite_with_speedup_nodma/chromite/benchmarks/kyber/ref/indcpa.c:260-299 | The buffer holds exactly the specified ciphertext. |
| Indcpa.Dec | chromite_with_speedup_nodma/chromite/benchmarks/kyber/ref/indcpa.c:314-332 | The buffer holds exactly the specified message. |
| Kem.Agreement | chromite_with_speedup_nodma/chromite/benchmarks/kyber/ref/kem.c:76-170 | If the noise in the inner ciphertext is harmless, decapsulation returns the secret of encapsulation. |
| Kem.ImplicitRejection | chromite_with_speedup_nodma/chromite/benchmarks/kyber/ref/kem.c:161-167 | Two keys whose coins differ in z only take the same ciphertexts for genuine and give the same secret on those, so z has no influence there; on every other ciphertext each gives the rejection value of its own z and that ciphertext. |
| Kem.DecapsulatedIsOutcome | chromite_with_speedup_nodma/chromite/benchmarks/kyber/ref/kem.c:140-170 | A ciphertext is accepted exactly when encapsulating the message it decrypts to gives it again; then the result is the secret of that encapsulation. |
| Kem.KeyFromCoins | chromite_with_speedup_nodma/chromite/benchmarks/kyber/ref/kem.c:25-35 | The first half of the coins makes the inner key, the second half is z, and the four parts of the secret key follow in this order. |
| Kem.EncapsulationFromHash | chromite_with_speedup_nodma/chromite/benchmarks/kyber/ref/kem.c:76-97 | The first half of G(m || H(pk)) is the shared secret and the second half the coins of the encryption. |
| Kem.DecapsulationFromHash | chromite_with_speedup_nodma/chromite/benchmarks/kyber/ref/kem.c:140-170 | For every key s || pk || h || z: the first half of G(m || h) if encrypting m with the second half gives the ciphertext, and the rejection value of z otherwise. |
| Kem.KeypairDerand | chromite_with_speedup_nodma/chromite/benchmarks/kyber/ref/kem.c:25-35 | The secret key is the inner secret key, the public key, its hash, and z. |
| Kem.EncDerand | chromite_with_speedup_nodma/chromite/benchmarks/kyber/ref/kem.c:76-96 | Ciphertext and secret as specified, from message and public key. |
| Kem.Dec | chromite_with_speedup_nodma/chromite/benchmarks/kyber/ref/kem.c:140-170 | The shared secret is the specified one in both cases of the comparison. |
| Kem.KeypairThenDec | chromite_with_speedup_nodma/chromite/benchmarks/kyber/ref/kem.c:25-170 | Key generation and then decapsulation of whatever arrives: the secret of the encapsulation it comes from, or the rejection value of the z in the coins. |
| Kem.Exchange | chromite_with_speedup_nodma/chromite/benchmarks/kyber/ref/kem.c:25-170 | Key generation, encapsulation and decapsulation on buffers: both sides hold the same secret if the noise of the inner ciphertext is harmless. |
| Keccak.OffsetsFromWalk | chromite_with_speedup_nodma/chromite/benchmarks/kyber/ref/fips202.c:141-220 | The rotation offsets are those of the walk that defines rho. |
| Keccak.ConstantsFromRegister | chromite_with_speedup_nodma/chromite/benchmarks/kyber/ref/fips202.c:48-73 | The 24 round constants are those of the shift register that defines iota. |
| Keccak.RoundToE | chromite_with_speedup_nodma/chromite/benchmarks/kyber/ref/fips202.c:127-220 | The first unrolled round, from lanes A to lanes E, is iota, chi, pi, rho and theta applied to the state. |
| Keccak.RoundToA | chromite_with_speedup_nodma/chromite/benchmarks/kyber/ref/fips202.c:222-315 | So is the second, from lanes E back to lanes A. |
| Keccak.StatePermute | chromite_with_speedup_nodma/chromite/benchmarks/kyber/ref/fips202.c:82-344 | Twelve double rounds are the 24 rounds of Keccak-f, for every state. |
| KeccakBits.BitXor | chromite_with_speedup_nodma/chromite/benchmarks/kyber/ref/fips202.c:128-132 | Exclusive or adds bits modulo 2. |
| KeccakBits.BitRol | chromite_with_speedup_nodma/chromite/benchmarks/kyber/ref/fips202.c:11 | A rotation by n moves every bit z to bit (z + n) mod 64. |
| KeccakBits.ThetaBit | chromite_with_speedup_nodma/chromite/benchmarks/kyber/ref/fips202.c:128-139 | Theta, bit by bit: the column to the left and the column to the right one bit below are added (FIPS 202, section 3.2.1). |
| KeccakBits.RhoPiBit | chromite_with_speedup_nodma/chromite/benchmarks/kyber/ref/fips202.c:141-150 | Rho and pi, bit by bit: where each bit goes, with the offset of the lane it comes from. |
| KeccakBits.ChiBit | chromite_with_speedup_nodma/chromite/benchmarks/kyber/ref/fips202.c:151-156 | Chi, bit by bit: each bit is changed by the product of the complement of the next bit in its row and the bit after that. |
| KeccakBits.RoundBit | chromite_with_speedup_nodma/chromite/benchmarks/kyber/ref/fips202.c:128-340 | The round that the code is proved to compute, bit by bit in terms of the linear part. |
| Sponge.AnySplitAbsorbs | chromite_with_speedup_nodma/chromite/benchmarks/kyber/ref/fips202.c:373-393 | Absorbing any split of an input gives the state of absorbing the whole. |
| Sponge.BitOfUpLane | chromite_with_speedup_nodma/chromite/benchmarks/kyber/ref/fips202.c:390 | A byte shifted to place k of a lane occupies bits 8k to 8k + 7, and no others. |
| Sponge.ByteAfterXor | chromite_with_speedup_nodma/chromite/benchmarks/kyber/ref/fips202.c:390 | Absorbing a byte changes the byte that squeezing reads at the same place, and no other. |
| Sponge.SqueezeConcat | chromite_with_speedup_nodma/chromite/benchmarks/kyber/ref/fips202.c:426-446 | Any split of a squeeze gives the same bytes and the same final state. |
| Sponge.SqueezeIsStream | chromite_with_speedup_nodma/chromite/benchmarks/kyber/ref/fips202.c:426-446 | The output is the stream of FIPS 202: byte k comes from permutation k/r + 1. |
| Sponge.FinalizeIsPadding | chromite_with_speedup_nodma/chromite/benchmarks/kyber/ref/fips202.c:405-409 | Finalizing and permuting is absorbing the domain bits and pad10*1, also when both fall on the same byte. |
| Sponge.KeccakAbsorb | chromite_with_speedup_nodma/chromite/benchmarks/kyber/ref/fips202.c:373-393 | State and position are those of absorbing byte by byte. |
| Sponge.KeccakFinalize | chromite_with_speedup_nodma/chromite/benchmarks/kyber/ref/fips202.c:405-409 | The domain byte at the position, the top bit at the end of the block. |
| Sponge.KeccakAbsorbOnce | chromite_with_speedup_nodma/chromite/benchmarks/kyber/ref/fips202.c:461-485 | Lane-wise absorption with load64 gives the same state as byte-wise absorption and finalization. |
| Sponge.KeccakSqueeze | chromite_with_speedup_nodma/chromite/benchmarks/kyber/ref/fips202.c:426-446 | The bytes written and the state left are those of squeezing byte by byte. |
| Sponge.KeccakSqueezeBlocks | chromite_with_speedup_nodma/chromite/benchmarks/kyber/ref/fips202.c:500-514 | Whole blocks, stored lane by lane, are the same stream. |
| Sponge.Shake256 | chromite_with_speedup_nodma/chromite/benchmarks/kyber/ref/fips202.c:723-734 | Blocks followed by a remainder give one prefix of the stream of the absorbed input. |
| Sponge.Rkprf | chromite_with_speedup_nodma/chromite/benchmarks/kyber/ref/symmetric-shake.c:64-73 | The two-step incremental computation is SHAKE256 of key followed by ciphertext. |
| Sponge.SqueezeContinues | chromite_with_speedup_nodma/chromite/benchmarks/kyber/ref/fips202.c:500-514 | What is squeezed after any number of bytes is the continuation of the same stream. |
| Sponge.Sha3256 | chromite_with_speedup_nodma/chromite/benchmarks/kyber/ref/fips202.c:745-754 | The first 32 stream bytes with the SHA-3 domain. |
| Sponge.Sha3512 | chromite_with_speedup_nodma/chromite/benchmarks/kyber/ref/fips202.c:765-774 | The first 64 stream bytes of the sponge with rate 72. |
| SymmetricShake.HashH | chromite_with_speedup_nodma/chromite/benchmarks/kyber/ref/symmetric.h:26 | The code computes the function H that the scheme is instantiated with, for every input. |
| SymmetricShake.HashG | chromite_with_speedup_nodma/chromite/benchmarks/kyber/ref/symmetric.h:27 | The code computes G, for every input. |
| SymmetricShake.KyberRkprf | chromite_with_speedup_nodma/chromite/benchmarks/kyber/ref/symmetric-shake.c:64-73 | The code computes the rejection function J. |
| SymmetricShake.KyberPrf | chromite_with_speedup_nodma/chromite/benchmarks/kyber/ref/symmetric-shake.c:43-51 | The bytes are the noise bytes of the instantiated scheme, at any length. |
| SymmetricShake.XofAbsorb | chromite_with_speedup_nodma/chromite/benchmarks/kyber/ref/symmetric-shake.c:18-30 | Leaves the state from which nothing of the matrix stream has been read. |
| SymmetricShake.XofSqueezeBlocks | chromite_with_speedup_nodma/chromite/benchmarks/kyber/ref/symmetric.h:29 | Reads the next blocks of the matrix stream of the instantiated scheme, however it was read before. |
| SymmetricShake.SecretFromSponge | chromite_with_speedup_nodma/chromite/benchmarks/kyber/ref/kem.c:140-170 | Decapsulation with the repository's own hash functions: half of SHA3-512 of message and key hash for a genuine ciphertext, SHAKE256 of z and the ciphertext for every other, for any secret key. |
| StableSort.MergeSorted | chromite_with_speedup_nodma/chromite/benchmarks/coremarks/core_list_join.c:453-477 | Merging sorted runs gives a sorted run. |
| StableSort.MergeClass | chromite_with_speedup_nodma/chromite/benchmarks/coremarks/core_list_join.c:462-464 | Merging with preference for the first run keeps equal elements in order. |
| StableSort.HalfwayStep | chromite_with_speedup_nodma/chromite/benchmarks/coremarks/core_list_join.c:432-483 | One pass doubles the sorted runs, keeps the elements and keeps every class in order. |
| StableSort.StableSortUnique | chromite_with_speedup_nodma/chromite/benchmarks/coremarks/core_list_join.c:404-424 | Sorted, same elements and stable determine the result. |
| CoreList.StepAlong | chromite_with_speedup_nodma/chromite/benchmarks/coremarks/core_list_join.c:441-447 | Steps n places along, or to the end, and counts the steps. |
| CoreList.MergeRuns | chromite_with_speedup_nodma/chromite/benchmarks/coremarks/core_list_join.c:450-477 | Relinks two neighbouring runs behind the output list as their stable merge, for all keys that agree with what the comparison has answered; the cells behind them stay linked as they were; the first cells of both runs have been compared. |
| CoreList.OnePass | chromite_with_speedup_nodma/chromite/benchmarks/coremarks/core_list_join.c:432-483 | The list becomes one pass of pairwise merges; at most one merge was needed exactly when two runs cover the list; every cell has been compared but a last one without a partner. |
| CoreList.MergeSort | chromite_with_speedup_nodma/chromite/benchmarks/coremarks/core_list_join.c:425-495 | Terminates on every non-empty acyclic list and returns an acyclic list of the same cells, sorted and stable, for comparisons that are fixed total preorders and for the two that write to the data while they compare. |
| CoreList.SortByOrder | chromite_with_speedup_nodma/chromite/benchmarks/coremarks/core_list_join.c:425-495 | For any comparator that reads the two items it is given (index and data word, and which items they are) and is a total preorder on the items of the list: sorted and stable, and only links change. |
| CoreList.SortByValue | chromite_with_speedup_nodma/chromite/benchmarks/coremarks/core_list_join.c:172 | With cmp_complex, whatever the benchmarks return: sorted by the values that the data hold afterwards, equal ones in their old order; every value has been computed and cached, and it is the word's own low seven bits unless the type is 0 or 1 and nothing was cached, when it is a benchmark's result. |
| CoreList.SortByIndex | chromite_with_speedup_nodma/chromite/benchmarks/coremarks/core_list_join.c:186-187 | With cmp_idx rebuilding the data: any rearrangement returns to the original order when the indices increase strictly along it, and every data word is rebuilt, except in a list of one cell. |
| CoreList.SortAndRestore | chromite_with_speedup_nodma/chromite/benchmarks/coremarks/core_list_join.c:172-187 | Sorting by value and then by index gives the original list with every data word rebuilt from its upper half, whatever the values were. |
| CoreList.Reverse | chromite_with_speedup_nodma/chromite/benchmarks/coremarks/core_list_join.c:394-403 | The same cells in reverse order. |
| CoreList.Remove | chromite_with_speedup_nodma/chromite/benchmarks/coremarks/core_list_join.c:315-326 | The cell after the item leaves the list with the item's data, and the item takes over its data. |
| CoreList.UndoRemove | chromite_with_speedup_nodma/chromite/benchmarks/coremarks/core_list_join.c:344-354 | The removed cell is linked behind the modified one and the data are exchanged back. |
| CoreList.RemoveThenUndo | chromite_with_speedup_nodma/chromite/benchmarks/coremarks/core_list_join.c:173-185 | Afterwards every cell has its link and its data again. |
| CoreCells.CmpIdx | chromite_with_speedup_nodma/chromite/benchmarks/coremarks/core_list_join.c:111-117 | The order is by index alone, also when the call rebuilds the data. |
| CoreCells.CalcFunc | chromite_with_speedup_nodma/chromite/benchmarks/coremarks/core_list_join.c:62-94 | A word with bit 7 set holds its value in bits 0 to 6 and is left alone. For every other one the value is the low seven bits of the word itself, or for types 0 and 1 of what the benchmark returns at this call; it replaces the low byte, with bit 7 set, and one more benchmark call is counted. |
| CoreCells.Compare | chromite_with_speedup_nodma/chromite/benchmarks/coremarks/core_list_join.c:100-117 | For all comparison functions: the answer in terms of the data afterwards, and what becomes of the data. |
| CoreCells.RegeneratedTwice | chromite_with_speedup_nodma/chromite/benchmarks/coremarks/core_list_join.c:112-115 | Rebuilding the data twice is rebuilding it once. |
| CoreCells.RegeneratedBytes | chromite_with_speedup_nodma/chromite/benchmarks/coremarks/core_list_join.c:112-115 | The upper byte stays and the lower byte becomes a copy of it. |
| ElfSymbols.StoredIndex | chromite_with_speedup_nodma/chromite/elfio/elfio/elfio_relocation.hpp:361-382 | A symbol index survives being stored in a relocation if and only if it fits its field, 24 bits in 32-bit files. |
| ElfSymbols.StoredType | chromite_with_speedup_nodma/chromite/elfio/elfio/elfio_relocation.hpp:361-382 | The whole type field of a relocation survives being rewritten if and only if it is below 256. |
| ElfSymbols.FieldsOfWord | chromite_with_speedup_nodma/chromite/elfio/elfio/elf_types.hpp:1030-1037 | The relocation word is the index followed by the type, 32 and 32 bits or 24 and 8. |
| ElfSymbols.RelocationSection.SwapSymbols | chromite_with_speedup_nodma/chromite/elfio/elfio/elfio_relocation.hpp:294-309 | Every entry for one symbol is redirected to the other, and no other entry changes; the type of an entry is kept if and only if the entry is not concerned or its type is below 256. |
| ElfSymbols.RedirectionKeepsTarget | chromite_with_speedup_nodma/chromite/elfio/elfio/elfio_relocation.hpp:294-309 | Exchanging two symbols and redirecting keeps target contents, offset and addend of a relocation, and its type if and only if it refers to another symbol or its type is below 256. |
| ElfSymbols.SymbolSection.ArrangeLocalSymbols | chromite_with_speedup_nodma/chromite/elfio/elfio/elfio_symbols.hpp:487-533 | Terminates; the table is permuted, entry 0 fixed, locals before the others and in their old order, the boundary returned and recorded; every relocation still refers to the same symbol contents, and its type is the same if and only if its symbol has kept its index or the type is below 256. |
| ElfSegments.IncludesSorted | chromite_with_speedup_nodma/chromite/elfio/elfio/elfio.hpp:639-640 | On sorted section lists the scan decides inclusion. |
| ElfSegments.InitialWorklist | chromite_with_speedup_nodma/chromite/elfio/elfio/elfio.hpp:652-667 | A rearrangement in which every segment known to start at offset 0 precedes every segment with another offset. |
| ElfSegments.RequeueAdvances | chromite_with_speedup_nodma/chromite/elfio/elfio/elfio.hpp:669-686 | Re-queueing a segment that something longer contains brings the first longest one forward: the termination measure. |
| ElfSegments.GetOrderedSegments | chromite_with_speedup_nodma/chromite/elfio/elfio/elfio.hpp:647-689 | Terminates; lists every segment once; no segment comes before one that contains its sections. A segment known to start at offset 0 that no other contains comes before every segment with another offset, and without such segments those that no other contains stay in their order. |
| ElfPlaces.SegmentPaddingAligns | chromite_with_speedup_nodma/chromite/elfio/elfio/elfio.hpp:765-771 | The padded position is congruent to the address exactly if the wrapped subtraction fits, which it does for every alignment up to 2^63. |
| ElfPlaces.MemberAligned | chromite_with_speedup_nodma/chromite/elfio/elfio/elfio.hpp:808-817 | A member without an address is padded to the next multiple of its alignment. |
| ElfPlaces.RequiredOffset | chromite_with_speedup_nodma/chromite/elfio/elfio/elfio.hpp:799-807 | Padding to the required distance from the segment start arrives there, modulo 2^64. |
| ElfPlaces.PlacedBackwards | chromite_with_speedup_nodma/chromite/elfio/elfio/elfio.hpp:799-807 | A member that passes the test for seeking back is nevertheless placed before the current position exactly if its distance from the segment leads past 2^64. |
| ElfPlaces.OneByteBelow | chromite_with_speedup_nodma/chromite/elfio/elfio/elfio.hpp:799-807 | Such an input: a section one byte below the address of its segment is placed one byte before it. |
| ElfRun.MemberOutcome | chromite_with_speedup_nodma/chromite/elfio/elfio/elfio.hpp:780-860 | The layout stops exactly at a member that would have to go back, and then nothing has changed; a member without a place gets the padded position and, if it has none, the address that belongs to it there; in every other case nothing moves. The size of the segment in the file: behind a section that has its place already it ends where that section ends; a new section adds its padding and its contents, but one without contents adds neither. |
| ElfRun.NestedRun | chromite_with_speedup_nodma/chromite/elfio/elfio/elfio.hpp:780-861 | Members that all have their places already are not moved, and nothing stops the layout; if the last one has contents the segment ends in the file where it does. |
| ElfRun.MemoryOfFresh | chromite_with_speedup_nodma/chromite/elfio/elfio/elfio.hpp:780-861 | In memory, a segment of new members that all belong there takes the room it takes in the file, with all padding, and that of its sections without contents. |
| ElfRun.MemoryNeverShrinks | chromite_with_speedup_nodma/chromite/elfio/elfio/elfio.hpp:863-873 | The layout of the segments, in any order, changes only their offsets and sizes, and makes no size in memory smaller. |
| ElfRun.FreeLayout | chromite_with_speedup_nodma/chromite/elfio/elfio/elfio.hpp:733-877 | For any segments in any order: if no section has both contents and an address given to it, nothing stops the layout. |
| ElfLayout.Image.LayoutMember | chromite_with_speedup_nodma/chromite/elfio/elfio/elfio.hpp:780-860 | The code does to the records and the position what `ElfRun.MemberOutcome` says, and every place recorded is where a loader that maps the segment finds the section at its address. |
| ElfLayout.Image.StartSegment | chromite_with_speedup_nodma/chromite/elfio/elfio/elfio.hpp:743-777 | Start, sizes and position in all five cases; a segment that begins with a section not yet placed starts at an offset congruent to its address exactly if the padding fits. |
| ElfPlaces.CoveredIff | chromite_with_speedup_nodma/chromite/elfio/elfio/elfio.hpp:780-874 | The part of the file that a segment is given takes in its new sections exactly if no section without contents was padded before the last one with contents. |
| ElfPlaces.LastSectionOutside | chromite_with_speedup_nodma/chromite/elfio/elfio/elfio.hpp:809-831 | Such an input: the last of three sections lies behind the part of the file that the segment is given. |
| ElfLayout.Image.LayoutSegment | chromite_with_speedup_nodma/chromite/elfio/elfio/elfio.hpp:742-874 | One segment: its members have their places and it is aligned. Its offset and its sizes, and whether it can be laid out, are those of `ElfRun.AfterSegment`. If none of its sections had a place before, and the last one with contents is not empty, [offset, offset + filesize) takes in the contents of all of them exactly if no section without contents was padded before the last one with contents. |
| ElfLayout.Image.LayoutSegments | chromite_with_speedup_nodma/chromite/elfio/elfio/elfio.hpp:733-877 | On success every non-empty member of a segment has its place, each place belongs to the segment that recorded it, segments are aligned, and the position has moved by the room of the segments at most. Whether it succeeds or stops, the records, the sizes and the position are those of `ElfRun.AfterSegments` for an order that puts containers first. |
| ElfLayout.Image.LayoutSectionsWithoutSegments | chromite_with_speedup_nodma/chromite/elfio/elfio/elfio.hpp:692-717 | Exactly the sections outside all segments are placed, in the order of their numbers; unless a position wraps, each at the first multiple of its alignment behind the one before. |
| ElfLayout.Image.CalcSegmentAlignment | chromite_with_speedup_nodma/chromite/elfio/elfio/elfio.hpp:720-730 | Each segment gets the largest of its own alignment and those of its sections. |
| ElfLayout.Image.ApartFromOrder | chromite_with_speedup_nodma/chromite/elfio/elfio/elfio.hpp:193-219 | Places in order imply pairwise disjoint extents between the tables. |
| ElfLayout.Image.Layout | chromite_with_speedup_nodma/chromite/elfio/elfio/elfio.hpp:193-219 | The passes succeed exactly if `ElfRun.AfterSegments` does, and leave the segments as it does; the remaining sections and the table follow, each at the first possible position. If they succeed each section is placed once. If the room that the input needs is below 2^64, or no position wrapped, the header, the program header table, all section contents and the section header table are pairwise disjoint, segments that begin with a section of their own are aligned, sections outside all segments and sections that came without an address lie at multiples of their alignment, and the section header table at a multiple of 4. |

## Left out

- Indcpa.KeypairDerand: assumes that the matrix streams suffice and that its own calls of the unit beat the poll limit, because the source loops forever or uses stale data otherwise.
- Accelerator.Drive: does not model the cycle, instruction and call statistics, which do not influence the result.
- Accelerator.ControlOutcome: the accelerator's own sources are not part of this model; its registers follow the top-level README, DATA_OUT keeps the last completed result, operands are taken when loading starts.
- CoreCells.CalcFunc: the state and matrix benchmarks are an arbitrary function of the data word and of how many values have been computed before; the checksums are not modelled.
- CoreCells.CmpIdx: `core_list_find` and `core_list_init` are not modelled.
- ElfLayout.Image.Layout: positions are 64-bit words. In 32-bit files the source stores offsets and addresses in 32 bits, which is harmless while `Room` is below 2^32; larger files are not modelled for that class.
- ElfSymbols.SymbolSection.ArrangeLocalSymbols: one relocation section as the callback; byte order conversion and raw entry bytes are replaced by records.
- KPke.DecryptOfEncrypt: says when decryption succeeds, not how likely that is.
- Sponge.Shake256: the one-call SHAKE128, which Kyber does not use, is the same code with another rate.
- SymmetricShake.XofSqueezeBlocks: `Matrix.SampleEntry` takes its blocks from the stream as a function; that the code delivers exactly those blocks is stated here.
- CoreList.SortByOrder: a comparator that reads memory other than the two items enters through the values read, which must not change during the sort.
- Random number generation, timing, constant-time behaviour, fences and `volatile`.
- The AVX2 variants of Kyber.
- ELF reading, dumping, hash tables, notes and stream output.
- Dhrystone, the CoreMark state machine and matrix kernels, the simulator and the hardware description.
