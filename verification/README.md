# A verified model of the Dusk node's core

The node keeps a privacy-oriented ledger and agrees on its blocks by committee votes. This project models the parts of it
whose correctness rests on more than one function at a time, and proves what they promise, for every input and every run:

- **The range proof and its inner product argument** (`Vectors`, `InnerProduct`, `Polynomial`, `RangeProof`, `RangeProver`).
  The prover folds four vectors in place over log n rounds; the verifier does one multi-exponentiation instead, with scalars
  picked by the bits of the index. `InnerProduct.GenerateThenVerify` proves that the two agree, and
  `RangeProver.ProveThenVerify` that the eleven-term sum of `Verify` vanishes for every proof that `Prove` makes of values in
  range, whatever the random scalar c. Scalars are any field, points any module over it (`Algebra`), hash functions are left
  open (`FiatShamir`) and randomness is an input.
- **The ring signature** (`Mlsag`). The signer walks round the ring from behind its own row, the verifier from row 0.
  `Mlsag.ProveThenVerify` proves that the ring closes for every size, shuffle and signer.
- **Base58** (`Numerals`, `Base58`). Both base conversions run over buffers of fixed size; `Base58.EncodeThenDecode` is the
  round trip, and the bounds prove that no carry is ever lost.
- **The consensus core** (`SortedSet`, `Bls`, `Agreement`, `Accumulator`, `Provisioners`, `Sortition`, `ReductionSteps`): the
  stakes and their total weight, committees drawn by weight, votes collected to a quorum, step counters of two components
  that run side by side, and votes folded into one signature and one bitset that verify again as a block certificate
  (`Agreement.VoteAndCertify`).
- **The ledger** (`Merkle`, `Ledger`, `Mempool`, `Database`, `Chain`): the Merkle tree as linked nodes, the pool of pending
  transactions, the key-value index as a plain list of blocks, and the invariant of every run of `AcceptBlock`.

`Bits`, `Counting`, `Outcome` and `Sequences` hold what several modules share. Code that works by changing things step by step is
imperative here too: objects whose methods update fields are classes, buffers are arrays, loops have invariants. A method is
proved against a function or predicate that is defined independently of it, and the lemmas are about those.

Goroutines are modelled as atomic steps at the granularity of locks and channels; any sequence of enabled steps is a run.

Where a promise does not hold of the code, the model keeps the code as it is, exhibits an input or run, and states exactly
when the promise holds:

- An agreement at a step whose double wraps to 0 loses votes, because step 0 marks an empty tally. It passes exactly if the
  keys of all voters at step 0 but the last pair to zero with the message (`Agreement.StepZeroRejected`,
  `Agreement.VoteAndCertify`, `Agreement.OneVoteAtZero`).
- In a reduction committee of two, one vote is a quorum (`Accumulator.TwoMembersDisagree`, `Accumulator.Equivocation`).
- The agreement component can change its round between checking results and counting its step
  (`ReductionSteps.LateStep`, `ReductionSteps.Node.Coupled`).
- A provisioner key that does not decode stays in the sorted set (`Provisioners.DecodeFailureBreaksKeys`,
  `Provisioners.Provisioners.AddMember`).
- Committees are drawn from the first keys, as many as there are active members, and these need not be the active ones
  (`Sortition.InactiveDrawn`). `Sortition.ActiveCommittees` says exactly when all draws are active, and
  `Sortition.FullCommittee` for as many seats as there are active members: when these have the first keys.
- A key image that is not 32 bytes long hides the ones after it from the pool's index (`Mempool.ShortImageHidesAnother`);
  the index stays exact exactly if there is none (`Mempool.Mempool.OnPendingTx`).
- A block with two transactions of one identifier is stored and cannot be read back (`Database.RepeatedTx`,
  `Database.FetchBlockTxs`).
- A signature without key images is never accepted (`Mlsag.ProveThenVerify`), and the empty byte string does not survive
  encoding and decoding (`Base58.EncodeThenDecode`).
- A committee of more than 64 does not fit the bitset (`SortedSet.KeyWithoutBit`, `SortedSet.PackUnpack`).

Comments in the source that say otherwise are not followed: the values of a range proof lie below 2^64, not 2^63
(pkg/crypto/rangeproof/rangeproof.go:18-20), and `Cmp` is negative when the event is ahead of the state, not behind it
(pkg/core/consensus/state.go:106-114).

## Model

| member | source | states |
|---|---|---|
| Vectors.Add | pkg/crypto/rangeproof/vector/vector.go:12-24 | the entrywise sum, or an error exactly for different lengths |
| Vectors.AddScalar | pkg/crypto/rangeproof/vector/vector.go:28-37 | b added to every entry |
| Vectors.Subtract | pkg/crypto/rangeproof/vector/vector.go:40-52 | the entrywise difference, as the sum with the negated vector, or an error |
| Vectors.Negate | pkg/crypto/rangeproof/vector/vector.go:55-67 | every entry negated |
| Vectors.SubScalar | pkg/crypto/rangeproof/vector/vector.go:70-83 | -b added to every entry; the shortcut for b = 0 changes nothing |
| Vectors.MulScalar | pkg/crypto/rangeproof/vector/vector.go:87-96 | the vector scaled from the left, although the loop multiplies from the right |
| Vectors.InnerProduct | pkg/crypto/rangeproof/vector/vector.go:99-113 | the inner product, or an error exactly for different lengths |
| Vectors.Exp | pkg/crypto/rangeproof/vector/vector.go:116-141 | the multi-exponentiation, or an error exactly for different or too short lengths |
| Vectors.ScalarPowers | pkg/crypto/rangeproof/vector/vector.go:145-171 | the powers of a non-zero scalar; for the zero scalar all entries are zero, also the first |
| Vectors.ScalarPowersSum | pkg/crypto/rangeproof/vector/vector.go:174-199 | the sum of the first n powers, the zero scalar included |
| Vectors.Hadamard | pkg/crypto/rangeproof/vector/vector.go:202-214 | the entrywise product, or an error exactly for different lengths |
| Vectors.FourDots | pkg/crypto/rangeproof/vector/vector.go:116-141 | bilinearity of the multi-exponentiation: a sum against a sum gives four terms |
| Vectors.DotMove | pkg/crypto/rangeproof/vector/vector.go:116-141 | a factor per entry can be moved from the scalars to the points |
| InnerProduct.FoldInPlace | pkg/crypto/rangeproof/innerproduct/innerproduct.go:134-153 | the loop that overwrites the left half of a vector leaves the weighted sum of the two old halves there |
| InnerProduct.FoldAll | pkg/crypto/rangeproof/innerproduct/innerproduct.go:134-158 | all four vectors are folded, each with its own weights, and none disturbs another |
| InnerProduct.CrossTerms | pkg/crypto/rangeproof/innerproduct/innerproduct.go:170-216 | L and R of a round |
| InnerProduct.FirstCrossTerms | pkg/crypto/rangeproof/innerproduct/innerproduct.go:58-123 | applying the factors of H on the way gives the cross terms of the vectors whose H already has them |
| InnerProduct.FirstFold | pkg/crypto/rangeproof/innerproduct/innerproduct.go:127-158 | the first folding, with the factors of H applied on the way, is the folding of vectors that have them |
| InnerProduct.FirstRound | pkg/crypto/rangeproof/innerproduct/innerproduct.go:50-159 | the first round is a round like the others, on vectors with the factors applied |
| InnerProduct.Round | pkg/crypto/rangeproof/innerproduct/innerproduct.go:161-255 | one round of the loop does one step of the recursion over halves |
| InnerProduct.LaterRounds | pkg/crypto/rangeproof/innerproduct/innerproduct.go:161-255 | the loop over the rounds, in place, does what the recursion over halves does |
| InnerProduct.AllRounds | pkg/crypto/rangeproof/innerproduct/innerproduct.go:34-263 | all rounds refine the recursion, started from the vectors with the factors applied |
| InnerProduct.GenerateRounds | pkg/crypto/rangeproof/innerproduct/innerproduct.go:34-263 | for every power of two above 1, one pair of cross terms per round, and final scalars that open the commitment if no challenge is zero |
| InnerProduct.LengthsAgree | pkg/crypto/rangeproof/innerproduct/innerproduct.go:53-114 | the scattered length checks of the first round pass exactly when all four vectors have the length of G |
| InnerProduct.Generate | pkg/crypto/rangeproof/innerproduct/innerproduct.go:25-263 | an error exactly for a length that is no power of two or vectors of other lengths; otherwise log n cross terms, and final scalars that open the commitment if no challenge is zero |
| InnerProduct.RoundCommit | pkg/crypto/rangeproof/innerproduct/innerproduct.go:224-249 | folding changes the commitment by exactly u^2 L + u^-2 R |
| InnerProduct.OpeningFolds | pkg/crypto/rangeproof/innerproduct/innerproduct.go:317-333 | opening with the verifier's scalars is unchanged by folding the points |
| InnerProduct.RoundOpens | pkg/crypto/rangeproof/innerproduct/innerproduct.go:161-255 | if the folded vectors are opened, so are the whole ones |
| InnerProduct.RunBack | pkg/crypto/rangeproof/innerproduct/innerproduct.go:161-263 | a run of lg n rounds leaves, after its first, a run of one round fewer that, if no challenge is zero, opens the whole when it is opened itself |
| InnerProduct.RunOpens | pkg/crypto/rangeproof/innerproduct/innerproduct.go:161-263 | after all rounds, prover's folding and verifier's single opening differ by the cross terms only |
| InnerProduct.DeriveChallenges | pkg/crypto/rangeproof/innerproduct/innerproduct.go:279-284 | the challenges of the growing transcript, as the prover derives them |
| InnerProduct.InvertChallenges | pkg/crypto/rangeproof/innerproduct/innerproduct.go:286-300 | the inverses, and their product as the scalar at index 0 |
| InnerProduct.SquareChallenges | pkg/crypto/rangeproof/innerproduct/innerproduct.go:302-315 | the squares of the challenges and of their inverses |
| InnerProduct.BuildScalars | pkg/crypto/rangeproof/innerproduct/innerproduct.go:317-333 | the loop computes any vector that satisfies its recurrence |
| InnerProduct.ScalarsRecurrence | pkg/crypto/rangeproof/innerproduct/innerproduct.go:323-333 | the products of challenges chosen by the index satisfy the recurrence, zero challenges included |
| InnerProduct.ChosenTopBit | pkg/crypto/rangeproof/innerproduct/innerproduct.go:325-331 | setting the highest bit of an index multiplies its scalar by the square of one challenge |
| InnerProduct.ChosenBits | pkg/crypto/rangeproof/innerproduct/innerproduct.go:323-333 | the choice by halves is the choice by bits, from any challenge on, if none is zero |
| InnerProduct.ScalarsByBits | pkg/crypto/rangeproof/innerproduct/innerproduct.go:317-333 | if no challenge is zero, the scalar at index i is the product over all j of the challenge u_j if bit lg n - 1 - j of i is set and of its inverse if not |
| InnerProduct.OppositeChoice | pkg/crypto/rangeproof/innerproduct/innerproduct.go:317-333 | the scalars at opposite indices are inverse to each other |
| InnerProduct.ReversalInverts | pkg/crypto/rangeproof/innerproduct/innerproduct.go:342-348 | reversing the scalars inverts each of them |
| InnerProduct.VerifScalars | pkg/crypto/rangeproof/innerproduct/innerproduct.go:267-336 | squares, inverse squares and, at each index, the product of challenges that the index chooses, whatever the challenges; nothing when L and R differ in length |
| InnerProduct.Reverse | pkg/crypto/rangeproof/innerproduct/innerproduct.go:345-348 | the swapping loop reverses |
| InnerProduct.SumScalars | pkg/crypto/rangeproof/innerproduct/innerproduct.go:342-376 | the scalars of the verifier's sum: a s, then b / s times the factors of H, then the negated squares |
| InnerProduct.VerifierSum | pkg/crypto/rangeproof/innerproduct/innerproduct.go:366-390 | the verifier's sum is the opening less the cross terms |
| InnerProduct.Verify | pkg/crypto/rangeproof/innerproduct/innerproduct.go:339-391 | whatever the challenges, true exactly when lengths fit and the expected point plus the cross terms is the opening |
| InnerProduct.GenerateThenVerify | pkg/crypto/rangeproof/innerproduct/innerproduct.go:25-391 | completeness: what Generate makes is accepted for exactly one point, the commitment <a, G> + <b Hpf, H> + <a, b> Q |
| InnerProduct.IsPower2Means | pkg/crypto/rangeproof/innerproduct/innerproduct.go:502-504 | n & (n - 1) = 0 exactly for powers of two |
| InnerProduct.NextPow2Bits | pkg/crypto/rangeproof/innerproduct/innerproduct.go:492-500 | the five shifts set bit i exactly when one of the 32 bits from i on was set |
| InnerProduct.PadsToPow2 | pkg/crypto/rangeproof/innerproduct/innerproduct.go:506-510 | the padding reaches the least power of two that is not below n |
| Polynomial.BitCommit | pkg/crypto/rangeproof/bitCommitment.go:17-51 | the n low bits of the value, and the same less one |
| Polynomial.BitsValue | pkg/crypto/rangeproof/bitCommitment.go:17-51 | the bits against the powers of two give the value back |
| Polynomial.PolyIdentity | pkg/crypto/rangeproof/poly.go:82-127 | the inner product of l(x) and r(x) is t0 + t1 x + t2 x^2, for every x |
| Polynomial.ConstantTerm | pkg/crypto/rangeproof/poly.go:129-153 | t0 is the sum of z^(j+2) v_j plus delta(y, z), for all y and z, for values cut down to n bits |
| Polynomial.WeightedValues | pkg/crypto/rangeproof/poly.go:155-178 | the bits of all values against the weights give the weighted sum of the values |
| Polynomial.TotalWeightedTwos | pkg/crypto/rangeproof/poly.go:203-233 | the weights add up to z^2 times two sums of powers |
| Polynomial.FindBlock | pkg/crypto/rangeproof/poly.go:170-175 | the search over all blocks hits exactly the block of the index |
| Polynomial.SumZMTwoN | pkg/crypto/rangeproof/poly.go:159-178 | the double loop computes z^(j+2) times the powers of two, block after block |
| Polynomial.ComputeT0 | pkg/crypto/rangeproof/poly.go:130-153 | the weighted sum of the values plus delta |
| Polynomial.ComputeDelta | pkg/crypto/rangeproof/poly.go:205-233 | delta(y, z) |
| Polynomial.ComputePoly | pkg/crypto/rangeproof/poly.go:18-80 | the vectors l0, l1, r0, r1 and the coefficients of their product |
| Polynomial.ComputeAt | pkg/crypto/rangeproof/poly.go:102-127 | l(x) and r(x), or an error for different lengths |
| RangeProof.Compute | pkg/crypto/rangeproof/generators/generator.go:31-57 | the chain of generators, each derived from the one before, extended by num |
| RangeProof.CommitToScalars | pkg/crypto/rangeproof/pedersen/pedersen.go:116-152 | the commitment over the chain of generators, extended when it is too short |
| RangeProof.CommitToVectors | pkg/crypto/rangeproof/pedersen/pedersen.go:181-212 | blind Bl + <v, G> + <u, H>, where H comes from the data with one more byte |
| RangeProof.WeightedCommits | pkg/crypto/rangeproof/pedersen/pedersen.go:154-176 | commitments are additively homomorphic, also with weights |
| RangeProof.ComputeTaux | pkg/crypto/rangeproof/rangeproof.go:257-281 | the polynomial of the blinding factors at x |
| RangeProof.SumOverG | pkg/crypto/rangeproof/rangeproof.go:369-377 | the first term of the sum |
| RangeProof.SumOverH | pkg/crypto/rangeproof/rangeproof.go:379-401 | the second term of the sum, for every y and z |
| RangeProof.SumOverV | pkg/crypto/rangeproof/rangeproof.go:451-461 | the weighted sum of the commitments, for every z |
| RangeProof.MegaCheckWithC | pkg/crypto/rangeproof/rangeproof.go:353-493 | whatever the challenges, false when the number of rounds does not fit, and otherwise true exactly when the eleven-term sum is zero |
| RangeProof.ChallengedPart | pkg/crypto/rangeproof/rangeproof.go:369-449 | what c multiplies adds up to c (A + x S + cross terms) |
| RangeProof.HonestAdded | pkg/crypto/rangeproof/rangeproof.go:374-427 | the added points of an honest proof |
| RangeProof.HonestBalance | pkg/crypto/rangeproof/rangeproof.go:429-482 | they balance the removed points, up to the weighted values and the weighted bits |
| RangeProof.HonestPasses | pkg/crypto/rangeproof/rangeproof.go:353-493 | the sum of an honest proof is zero, for every c, exactly when weighted values and weighted bits give the same point |
| RangeProof.InRange | pkg/crypto/rangeproof/bitCommitment.go:31-48 | values below 2^n are what their n bits stand for |
| RangeProof.AppendCommits | pkg/crypto/rangeproof/rangeproof.go:338-341 | the transcript of the commitments |
| RangeProof.Generators | pkg/crypto/rangeproof/rangeproof.go:325-335 | the two vectors of generators, which do not depend on the proof |
| RangeProof.Replay | pkg/crypto/rangeproof/rangeproof.go:337-348 | the challenges, derived from the proof alone |
| RangeProof.Verify | pkg/crypto/rangeproof/rangeproof.go:323-351 | the check over challenges derived from the proof alone, also when one of them is zero |
| RangeProver.Pad | pkg/crypto/rangeproof/rangeproof.go:56-63 | the values followed by zeros, up to the least power of two |
| RangeProver.CommitValues | pkg/crypto/rangeproof/rangeproof.go:74-82 | the commitments and their transcript |
| RangeProver.BitCommits | pkg/crypto/rangeproof/rangeproof.go:84-92 | the bits of all values, and the same less one |
| RangeProver.Answer | pkg/crypto/rangeproof/rangeproof.go:121-207 | taux, mu and t, and an inner product proof that opens l(x) and r(x) |
| RangeProver.ProvePadded | pkg/crypto/rangeproof/rangeproof.go:65-207 | an error exactly when a challenge x, y or z is zero; otherwise a proof whose parts belong together |
| RangeProver.Prove | pkg/crypto/rangeproof/rangeproof.go:45-208 | an error for no values or more than 16; otherwise the outcome for the padded values |
| RangeProver.ProveThenVerify | pkg/crypto/rangeproof/rangeproof.go:45-493 | completeness: values below 2^n are accepted for every c; in general acceptance says exactly that values and their n low bits have the same weighted sum |
| Mlsag.GenerateChallenge | pkg/crypto/mlsag/mlsag.go:340-389 | the next challenge, from the commitments to all keys and all key images |
| Mlsag.WalkCloses | pkg/crypto/mlsag/mlsag.go:270-303 | a lap from row 0 comes back to its challenge exactly when the whole ring has a consistent assignment of challenges |
| Mlsag.VerifyOneStep | pkg/crypto/mlsag/mlsag.go:272-287 | one step of the walk from row 0; the counter says when the lap is over, also in a ring of one |
| Mlsag.Verify | pkg/crypto/mlsag/mlsag.go:261-306 | true exactly when there is a key image and the walk from row 0 comes back, for every ring size; a ring of one is walked twice |
| Mlsag.ResponseOpens | pkg/crypto/mlsag/mlsag.go:235-246 | the real response gives the nonce point back, whatever the challenge |
| Mlsag.RealResponseCloses | pkg/crypto/mlsag/mlsag.go:233-249 | with the real responses, the challenge after the signer's row is the first one that was drawn |
| Mlsag.GenerateFirstChallenge | pkg/crypto/mlsag/mlsag.go:172-205 | the first challenge, from the nonces alone |
| Mlsag.GenerateResponses | pkg/crypto/mlsag/mlsag.go:322-338 | random responses everywhere but in the signer's row |
| Mlsag.WalkOneStep | pkg/crypto/mlsag/mlsag.go:214-231 | one step of the walk from behind the signer: the chain of challenges is one longer, and the lap is not over before all rows are done |
| Mlsag.WalkRing | pkg/crypto/mlsag/mlsag.go:207-231 | the modular-index loop fills in a chain of challenges from behind the signer's row round to it |
| Mlsag.ChainCloses | pkg/crypto/mlsag/mlsag.go:207-249 | the chain closes once the real responses are in place |
| Mlsag.CalculateKeyImages | pkg/crypto/mlsag/mlsag.go:391-419 | the key images of all keys, or of all but the last |
| Mlsag.RealResponses | pkg/crypto/mlsag/mlsag.go:233-246 | nonce - challenge * key, for every key |
| Mlsag.Sign | pkg/crypto/mlsag/mlsag.go:160-258 | the signature has a consistent assignment of challenges that starts with its own |
| Mlsag.SignRows | pkg/crypto/mlsag/mlsag.go:160-258 | a signature over any rows of the right length, the signer at any place, is one the verifier accepts |
| Mlsag.Proof.AddDecoy | pkg/crypto/mlsag/proof.go:36-39 | a decoy row is appended |
| Mlsag.Proof.AddSecret | pkg/crypto/mlsag/proof.go:53-62 | a key is appended, and the public keys stay those of the private ones |
| Mlsag.Proof.ShuffleSet | pkg/crypto/mlsag/proof.go:71-91 | the rows are permuted, and the index is that of a row that is no decoy, or there is none |
| Mlsag.TheSigner | pkg/crypto/mlsag/proof.go:80-87 | after a shuffle of decoys and one signer, the row that is no decoy is the signer's |
| Mlsag.Proof.PlaceSigner | pkg/crypto/mlsag/mlsag.go:144-150 | the signer is put among the decoys, the rows are permuted, and the index is that of the signer |
| Mlsag.SameLengths | pkg/crypto/mlsag/mlsag.go:152-158 | true exactly when all rows have that length |
| Mlsag.Proof.Prove | pkg/crypto/mlsag/mlsag.go:142-259 | an error exactly when row lengths differ; otherwise a signature that closes the ring and the key images of the signer |
| Mlsag.ProveThenVerify | pkg/crypto/mlsag/mlsag.go:142-306 | completeness: what was signed is accepted exactly when there is a key image |
| Mlsag.DualKeyProve | pkg/crypto/mlsag/dualkey.go:46-63 | two keys, one key image: an error exactly for a zero key or rows of another length, otherwise an acceptable signature |
| Base58.NewAlphabet | pkg/crypto/base58/alphabet.go:14-27 | an error exactly for a wrong length; symbols and digits determine each other if the symbols are distinct |
| Base58.Enough | pkg/crypto/base58/base58.go:48-49 | n * 138 / 100 + 1 digits are enough for any n bytes |
| Base58.CarryPlace | pkg/crypto/base58/base58.go:54-57 | one place takes the carry: what the buffer and the carry stand for together stays the same |
| Base58.AppendByte | pkg/crypto/base58/base58.go:53-59 | the carry loop multiplies the buffer by 256 and adds a byte; the carry stays below 256 and the index never leaves the buffer |
| Base58.ConvertBytes | pkg/crypto/base58/base58.go:48-60 | the buffer holds the base-58 digits of the bytes |
| Base58.EncodingAlphabet | pkg/crypto/base58/base58.go:37-79 | a zero symbol per leading zero byte, then the digits of the value without leading zeros |
| Base58.AppendDigit | pkg/crypto/base58/base58.go:143-149 | the word loop multiplies by 58 and adds a digit; the mask on the carry loses nothing |
| Base58.NoWordCarry | pkg/crypto/base58/base58.go:151-153 | the carry out of the words is zero |
| Base58.FirstWord | pkg/crypto/base58/base58.go:155-157 | the first word has no more than its share of the bytes |
| Base58.MaskClear | pkg/crypto/base58/base58.go:123-127 | such a word has nothing under the mask |
| Base58.ReadDigit | pkg/crypto/base58/base58.go:143-157 | one more digit is read, and neither error for a number that is too big can occur |
| Base58.ReadSymbols | pkg/crypto/base58/base58.go:135-158 | false exactly when some symbol is not in the alphabet; otherwise the words hold the value |
| Base58.WriteWord | pkg/crypto/base58/base58.go:162-164 | the loop over the wrapping byte counter writes exactly the low bytes of the word |
| Base58.WriteBytes | pkg/crypto/base58/base58.go:160-168 | as many bytes are written as there are symbols |
| Base58.CutZeros | pkg/crypto/base58/base58.go:170-179 | leading zeros are cut, save for as many as there were zero symbols |
| Base58.ConvertSymbols | pkg/crypto/base58/base58.go:108-168 | the bytes hold the value of the symbols |
| Base58.DecodingAlphabet | pkg/crypto/base58/base58.go:103-180 | an error exactly for the empty string and for foreign symbols; otherwise the bytes of the value behind the zeros |
| Base58.RoundTrip | pkg/crypto/base58/base58.go:37-180 | decoding what was encoded gives the same bytes, leading zeros included |
| Base58.EncodeThenDecode | pkg/crypto/base58/base58.go:37-180 | the round trip of the code, for every alphabet of 58 distinct ASCII symbols; only the empty byte string fails |
| SortedSet.IndexOf | pkg/util/nativeutils/sortedset/sortedset.go:34-46 | the binary search finds the insertion point, and its probe flag is true exactly for members |
| SortedSet.InsertInto | pkg/util/nativeutils/sortedset/sortedset.go:114-123 | the set stays strictly sorted and gains exactly the key; true exactly when it was missing |
| SortedSet.RemoveFrom | pkg/util/nativeutils/sortedset/sortedset.go:55-62 | the set stays strictly sorted and loses exactly the key; true exactly when it was there |
| SortedSet.SortedUnique | pkg/util/nativeutils/sortedset/sortedset.go:13-17 | a sorted set is determined by its elements |
| SortedSet.Whole | pkg/util/nativeutils/sortedset/sortedset.go:125-131 | a bit per key, up to 64 |
| SortedSet.BitsOf | pkg/util/nativeutils/sortedset/sortedset.go:81-99 | the single walk marks exactly the positions of the subset, up to its first foreign key |
| SortedSet.Intersect | pkg/util/nativeutils/sortedset/sortedset.go:65-78 | the keys whose bits are set; the shortcuts change that only for more than 64 keys |
| SortedSet.PackUnpack | pkg/util/nativeutils/sortedset/sortedset.go:64-99 | unpacking a packed subset gives it back, always for at most 64 keys, and exactly when it fits the word for more |
| SortedSet.UnpackPack | pkg/util/nativeutils/sortedset/sortedset.go:64-99 | packing an unpacked word masks it with the whole word |
| SortedSet.PackThenUnpack | pkg/util/nativeutils/sortedset/sortedset.go:64-99 | the same of the code |
| SortedSet.UnpackThenPack | pkg/util/nativeutils/sortedset/sortedset.go:64-131 | the same of the code |
| SortedSet.KeyWithoutBit | pkg/util/nativeutils/sortedset/sortedset.go:64-99 | a set of 65 keys, the last of which is lost when it is packed and unpacked |
| Bls.SignVerifies | pkg/crypto/bls/bls.go:235-243 | a signature verifies against the weighted key of its signer |
| Bls.ReconstructApk | pkg/core/consensus/agreement/handler.go:81-101 | the sum of the weighted keys; an error exactly for no keys or one that does not decode |
| Bls.ApkWithout | pkg/crypto/bls/bls.go:214-224 | taking one key out takes exactly its weight out |
| Bls.ApkReordered | pkg/crypto/bls/bls.go:196-224 | the aggregated key does not depend on the order of distinct keys |
| Agreement.StepVotes.Add | pkg/core/consensus/agreement/event.go:61-89 | the new tally in every case: a vote starts it over at step 0 and is added otherwise; a key that does not decode or another step leaves it alone; a signature that does not decode comes after the key has been added |
| Agreement.SumVerifies | pkg/crypto/bls/bls.go:196-224 | signatures of one message that match their keys add up to one that matches the sum of the keys |
| Agreement.TallyVerifies | pkg/core/consensus/agreement/event.go:61-89 | away from step 0, correct votes in any order add up to a correct signature of the sum of their keys |
| Agreement.AddVote | pkg/core/consensus/agreement/handler.go:190-194 | the entry of the step follows the votes; an error exactly for a vote whose sender or signature does not decode |
| Agreement.TakeVote | pkg/core/consensus/agreement/handler.go:183-195 | with one more vote, still one entry per step with votes; an error exactly for a vote that does not decode |
| Agreement.CollectVotes | pkg/core/consensus/agreement/handler.go:177-195 | one entry per step with votes, each what its votes add up to; an error exactly if some vote does not decode |
| Agreement.ChooseBatches | pkg/core/consensus/agreement/handler.go:199-207 | in any order of the map, each slot holds a batch of its parity if there is one |
| Agreement.ChooseOne | pkg/core/consensus/agreement/handler.go:202-206 | a batch goes to the slot of its parity, and the other slot is left alone |
| Agreement.PackVotes | pkg/core/consensus/agreement/handler.go:200-201 | the bitset of the voters at the step of the tally |
| Agreement.Aggregate | pkg/core/consensus/agreement/handler.go:176-210 | an error exactly for a sender or signature that does not decode; otherwise the batches of both parities |
| Agreement.VerifyBatch | pkg/core/consensus/agreement/handler.go:62-71 | true exactly when the bitset names voters whose keys match the signature |
| Agreement.Verify | pkg/core/consensus/agreement/handler.go:54-78 | both batches are in order and together name a quorum |
| Agreement.CheckBlockCertificate | pkg/core/verifiers/block.go:52-89 | true below height 2, and else exactly when both signatures decode and both batches are in order |
| Agreement.VotersKey | pkg/core/consensus/agreement/handler.go:81-101 | the bitset of a step names its senders, and their aggregated key does not depend on the order of the votes |
| Agreement.BatchInOrder | pkg/core/consensus/agreement/handler.go:176-210 | correct votes of committee members make a batch that is in order, with as many voters |
| Agreement.TallyAtZero | pkg/core/consensus/agreement/event.go:62-75 | at step 0 only the last signature is kept |
| Agreement.LastOfAll | pkg/crypto/bls/bls.go:196-224 | the signature of the last of several signers matches the sum of their keys exactly when the key of the others pairs to zero with the message |
| Agreement.BatchAtZero | pkg/core/consensus/agreement/event.go:62-75 | so the batch of step 0 is in order exactly when the key of all its senders but the last pairs to zero with the message |
| Agreement.OneVoteAtZero | pkg/core/consensus/agreement/event.go:62-75 | a single vote at step 0 does no harm |
| Agreement.VoteAndCertify | pkg/core/consensus/generation/certgenerator.go:36-45 | votes in any order are aggregated, verified and certified: the event passes exactly with a quorum and the certificate always, unless the second step wraps to 0 and the key of its senders but the last does not pair to zero with the message |
| Agreement.StepZeroFails | pkg/core/consensus/agreement/event.go:62-75 | correct votes at step 128, whose second step wraps to 0, for which that is so |
| Agreement.StepZeroRejected | pkg/core/consensus/agreement/event.go:62-75 | these votes, aggregated by the code, are neither verified nor certified |
| Accumulator.EventFilter.constructor | pkg/core/consensus/eventfilter.go:38-45 | an empty filter is valid |
| Accumulator.EventFilter.Process | pkg/core/consensus/accumulator.go:57-64 | an event goes to the workers exactly if its sender is in the committee |
| Accumulator.EventFilter.Collect | pkg/core/consensus/eventfilter.go:48-89 | early events are queued, current ones processed, others dropped |
| Accumulator.EventFilter.PutEvent | pkg/core/consensus/eventqueue.go:39-54 | the event is appended under its round and step |
| Accumulator.EventFilter.ProcessAll | pkg/core/consensus/eventfilter.go:121-125 | the events of members go to the workers, in order |
| Accumulator.EventFilter.FlushQueue | pkg/core/consensus/eventfilter.go:113-126 | the queued events of the current round and step are processed and gone from the queue |
| Accumulator.EventFilter.Work | pkg/core/consensus/accumulator.go:121-145 | a verified event is passed on if there is room |
| Accumulator.EventFilter.Insert | pkg/core/consensus/accumulatorstore.go:49-67 | one vote per sender, and the length of the list |
| Accumulator.EventFilter.Deliver | pkg/core/consensus/accumulator.go:83-87 | the list that reached the quorum is handed on, and the store is empty |
| Accumulator.EventFilter.Accumulate | pkg/core/consensus/accumulator.go:66-102 | every batch emitted at one round and step has distinct senders of the committee, one hash, verified votes and a quorum; the store is empty after it |
| Accumulator.EventFilter.ResetAccumulator | pkg/core/consensus/eventfilter.go:103-109 | a new accumulator, with nothing in it |
| Accumulator.EventFilter.UpdateRound | pkg/core/consensus/eventfilter.go:93-101 | the new round at step 1, a new accumulator, and the queue without the round before |
| Accumulator.EventFilter.IncrementStep | pkg/core/consensus/state.go:97-104 | the step in eight bits |
| Accumulator.SendersCount | pkg/core/consensus/reduction/event.go:36-40 | a batch has as many senders as votes |
| Accumulator.BatchesOverlap | pkg/core/consensus/reduction/committee.go:41-52 | any two batches of a round and step share at least 2 floor(3n/4) - n senders, and one unless n = 2 |
| Accumulator.Equivocation | pkg/core/consensus/reduction/committee.go:41-52 | conflicting batches need a member with verified votes for both hashes, unless n = 2 |
| Accumulator.TwoMembersDisagree | pkg/core/consensus/reduction/committee.go:41-43 | two batches of a committee of two that share no sender |
| Provisioners.SumWithout | pkg/core/consensus/committee/store.go:89-90 | the sum over members does not depend on the order |
| Provisioners.TotalWithout | pkg/core/consensus/committee/store.go:89-90 | a member that leaves takes exactly its stakes out of the total |
| Provisioners.RemoveExpiredStakes | pkg/core/consensus/user/provisioners.go:223-235 | the loop that starts over ends with no expired stake, the others as often as before, and the exact amount |
| Provisioners.Provisioners.Size | pkg/core/consensus/user/provisioners.go:119-132 | the cached or counted number of active members, at most the length of the set |
| Provisioners.Provisioners.MembersAt | pkg/core/consensus/user/provisioners.go:148-161 | the number of members with a stake that has started |
| Provisioners.Provisioners.AddMember | pkg/core/consensus/user/provisioners.go:171-207 | the stake is added; keys and members stay in step exactly unless a new key does not decode |
| Provisioners.Provisioners.Remove | pkg/core/consensus/user/provisioners.go:210-218 | the member is gone from members and set, and the cache is reset |
| Provisioners.Provisioners.RemoveExpired | pkg/core/consensus/user/provisioners.go:220-239 | no expired stake is left, live ones are unchanged, members without stakes are gone, and the amount is exactly what was removed |
| Provisioners.Provisioners.GetStake | pkg/core/consensus/user/provisioners.go:243-263 | the sum of the stakes of a member, or an error |
| Provisioners.Store.AddProvisioner | pkg/core/consensus/committee/store.go:104-119 | the total weight stays the sum of all stakes |
| Provisioners.Store.RemoveProvisioner | pkg/core/consensus/committee/store.go:81-92 | the total weight stays the sum of all stakes |
| Provisioners.Store.RemoveExpiredProvisioners | pkg/core/consensus/committee/store.go:94-101 | the total weight stays the sum of all stakes, and only expired ones are gone |
| Provisioners.DecodeFailureBreaksKeys | pkg/core/consensus/user/provisioners.go:186-200 | a run after which the set has a key without a member |
| Sortition.IndexIsRemainder | pkg/core/consensus/user/sortition.go:107-111 | the index that wraps round is the remainder of the position |
| Sortition.ExtractCommitteeMember | pkg/core/consensus/user/sortition.go:106-128 | the walk ends, at the first position, counting laps, where the walked stake reaches the score |
| Sortition.SomeFree | pkg/core/consensus/user/sortition.go:78-98 | fewer draws than members leave one that is free |
| Sortition.TryNext | pkg/core/consensus/user/sortition.go:87-96 | one step of the inner walk: it takes a free member, or has one more tried |
| Sortition.TakeNextFree | pkg/core/consensus/user/sortition.go:87-96 | the inner walk ends at the first member from there on that is not in the committee |
| Sortition.CreateVotingCommittee | pkg/core/consensus/user/sortition.go:72-101 | for every outcome of the hashes, exactly size distinct members among the first Size(round) keys, each the one its score leads to or the next free one |
| Sortition.DirectScore | pkg/core/consensus/user/sortition.go:72-84 | a member with stake before whom less than the total weight is walked has a score that leads to it |
| Sortition.OnlyDirect | pkg/core/consensus/user/sortition.go:106-128 | no score below the total weight leads to any other member |
| Sortition.DrawnIsReachable | pkg/core/consensus/user/sortition.go:72-101 | whatever the hashes, a drawn member lies less than size steps behind one that a score leads to |
| Sortition.ReachableIsDrawn | pkg/core/consensus/user/sortition.go:72-101 | and every such member is drawn for some outcome of the hashes |
| Sortition.ActiveCommittees | pkg/core/consensus/user/sortition.go:72-128 | a committee has only active members, for every outcome of the hashes, exactly if the members within size steps behind one that a score leads to are active |
| Sortition.FullCommittee | pkg/core/consensus/user/sortition.go:72-128 | with as many seats as active members, exactly if the active members are those with the first keys |
| Sortition.InactiveDrawn | pkg/core/consensus/user/sortition.go:87-128 | a run whose only seat goes to a member without an active stake, and not to the one with it |
| ReductionSteps.Node.constructor | pkg/core/consensus/reduction/reducer.go:67-76 | the start of every run |
| ReductionSteps.Node.UpdateAgreementRound | pkg/core/consensus/agreement/broker.go:105-114 | the agreement round moves on and is published; the invariant is kept |
| ReductionSteps.Node.TakeAgreementStep | pkg/core/consensus/agreement/broker.go:71-103 | the step is taken exactly for results of the round that was checked; the invariant is kept |
| ReductionSteps.Node.End | pkg/core/consensus/reduction/reducer.go:252-258 | the goroutine becomes stale; the invariant is kept |
| ReductionSteps.Node.UpdateReductionRound | pkg/core/consensus/reduction/broker.go:73-82 | the reduction round moves on to step 1; the invariant is kept |
| ReductionSteps.Node.StartReduction | pkg/core/consensus/reduction/reducer.go:84-99 | a cycle starts; the invariant is kept |
| ReductionSteps.Node.HandleFirstResult | pkg/core/consensus/reduction/reducer.go:112-144 | the step is counted exactly if the goroutine is not stale; the invariant is kept |
| ReductionSteps.Node.HandleSecondResult | pkg/core/consensus/reduction/reducer.go:146-172 | votes are sent exactly when both steps gave the same non-zero hash; the invariant is kept |
| ReductionSteps.Node.FinishCycle | pkg/core/consensus/reduction/reducer.go:150-152 | the deferred step ends the cycle; the invariant is kept |
| ReductionSteps.Node.Coupled | pkg/core/consensus/state.go:88-104 | in the same round and between cycles, the reduction step is 2 a - 1 mod 256 for agreement step a, exactly if no step came in late |
| ReductionSteps.LateStep | pkg/core/consensus/agreement/broker.go:77-83 | a run in which a step comes in late |
| Merkle.Join | pkg/crypto/merkletree/merkletree.go:122-141 | a node above two, whose parents are set |
| Merkle.AddNode | pkg/crypto/merkletree/merkletree.go:122-146 | one more node of the level above, over the next pair; an odd last node is its own sibling |
| Merkle.CreateLevel | pkg/crypto/merkletree/merkletree.go:119-146 | the level above, with half as many nodes, rounded up |
| Merkle.CreateIntermediate | pkg/crypto/merkletree/merkletree.go:119-149 | it ends for every level of at least two nodes, with the root of their hashes |
| Merkle.CreateLeaves | pkg/crypto/merkletree/merkletree.go:86-109 | a leaf per payload, the last one twice if they are odd; an error exactly if one does not hash |
| Merkle.BuildTree | pkg/crypto/merkletree/merkletree.go:66-149 | over any leaves, a linked tree whose root is that of their hashes |
| Merkle.Create | pkg/crypto/merkletree/merkletree.go:66-116 | an error exactly for no payloads or one that does not hash; otherwise a tree whose stored hashes are all right |
| Merkle.Recomputed | pkg/crypto/merkletree/merkletree.go:38-54 | computing the hashes again from the leaves gives the stored ones |
| Merkle.VerifyTree | pkg/crypto/merkletree/merkletree.go:177-188 | a tree whose hashes are right passes exactly with the hash of its root |
| Merkle.CalculateNodeHash | pkg/crypto/merkletree/merkletree.go:57-63 | the stored hash of a node |
| Merkle.VerifyPath | pkg/crypto/merkletree/merkletree.go:199-224 | the walk over the parents ends and succeeds from every leaf |
| Merkle.VerifyContent | pkg/crypto/merkletree/merkletree.go:191-229 | true exactly when some leaf has the same hash |
| Merkle.CreateThenVerify | pkg/crypto/merkletree/merkletree.go:66-243 | a new tree verifies as a whole, and holds a payload exactly when one that it was made from has the same hash |
| Mempool.HashMap.Put | pkg/core/mempool/hashmap.go:32-67 | the transaction is stored under its hash even if a key image has a wrong length; key images are stored up to the first such one |
| Mempool.PoolGrows | pkg/core/mempool/mempool.go:164-189 | a transaction with new key images leaves the index exact, and the pool valid, exactly if all its key images have 32 bytes |
| Mempool.IndexMisses | pkg/core/mempool/hashmap.go:55-64 | the first key image of a wrong length is pooled and not in the index |
| Mempool.Mempool.OnPendingTx | pkg/core/mempool/mempool.go:146-196 | the transaction is taken exactly if it hashes, is no coinbase, is new, spends nothing pooled and verifies; the index is then the set of pooled key images exactly if all its key images have 32 bytes |
| Mempool.KeepOthers | pkg/core/mempool/mempool.go:234-250 | a new pool of exactly the transactions whose hash is not in the block |
| Mempool.Mempool.RemoveAccepted | pkg/core/mempool/mempool.go:211-254 | a block with a matching root leaves exactly the transactions whose hash is not in it, any other block leaves all |
| Mempool.ShortImageHidesAnother | pkg/core/mempool/hashmap.go:55-64 | a run that pools two transactions with a common key image |
| Database.PutImages | pkg/core/database/heavy/transactions.go:143-151 | exactly the key images of the transaction are added, and nothing else |
| Database.PutTx | pkg/core/database/heavy/transactions.go:105-163 | the entries of one more transaction, none of which disturbs another kind |
| Database.StoreTxs | pkg/core/database/heavy/transactions.go:103-163 | an error exactly for a transaction without identifier; otherwise the entries of all transactions |
| Database.StoreBlock | pkg/core/database/heavy/transactions.go:74-190 | an error exactly for a hash of a wrong length or a transaction without identifier; otherwise the batch of the block |
| Database.Commit | pkg/core/database/heavy/transactions.go:74-203 | writing the batch of a new block turns the store of a list into the store of the longer list |
| Database.DB.UpdateBlock | pkg/core/database/heavy/database.go:136-158 | the batch is written as a whole, or nothing is |
| Database.LookupsAgree | pkg/core/database/heavy/transactions.go:221-455 | lookups by hash, by height, of the tip and of key images agree with the list of blocks |
| Database.ScanIs | pkg/core/database/heavy/transactions.go:305-313 | the keys under the prefix of a block are those of its transactions |
| Database.CollectTxs | pkg/core/database/heavy/transactions.go:306-328 | every position that is stored is read once, in whatever order: of transactions with one identifier, the last |
| Database.Arrange | pkg/core/database/heavy/transactions.go:330-334 | the map becomes a list of its length; a position beyond that is a panic |
| Database.FitsExactly | pkg/core/database/heavy/transactions.go:330-334 | the positions of a block fill the list exactly if its identifiers are distinct |
| Database.OrderTxs | pkg/core/database/heavy/transactions.go:306-343 | a panic exactly if two transactions have one identifier; otherwise all of them in order, with an error if the first is no coinbase |
| Database.FetchBlockTxs | pkg/core/database/heavy/transactions.go:303-344 | the same of every block of the list |
| Database.RepeatedTx | pkg/core/database/heavy/transactions.go:74-344 | a block with the same transaction twice is stored, and reading it panics |
| Chain.CheckMultiCoinbases | pkg/core/verifiers/block.go:130-146 | true exactly for one coinbase |
| Chain.CheckBlockHeader | pkg/core/verifiers/block.go:94-126 | true exactly for a header that follows the one before and has the root of its transactions |
| Chain.CheckBlock | pkg/core/verifiers/block.go:17-49 | true exactly for an unknown block with such a header, one coinbase and transactions that pass |
| Chain.Extends | pkg/core/verifiers/block.go:17-49 | a block that passes extends the chain: links, heights, timestamps, coinbase first, and no key image spent before |
| Chain.Accepted | pkg/core/chain/chain.go:230-240 | storing it keeps chain and database in step |
| Chain.TimeGrows | pkg/core/verifiers/block.go:110-113 | timestamps grow along the whole chain |
| Chain.Chain.constructor | pkg/core/chain/loader.go:110-119 | a chain of its genesis block alone |
| Chain.Chain.AcceptBlock | pkg/core/chain/chain.go:202-284 | a block is stored exactly if it passes, is certified and fits the store; the chain and the database stay in step over every run |
| Chain.Chain.Store | pkg/core/chain/chain.go:230-240 | the block is stored and becomes the previous one, or nothing changes |
| Chain.Chain.LoadTip | pkg/core/chain/loader.go:106-139 | the tip is read back from the database as it was accepted; a panic exactly if two of its transactions have one identifier |

## Left out

- Network, peers, RPC, command line, configuration, logging and monitoring: input and output.
- The arithmetic of the curves, the hash functions, Ed25519, zero-knowledge proofs of bids and the internals of LevelDB: groups and fields are abstract, hash functions are open, the store is a map.
- Soundness, zero knowledge and unforgeability: they rest on assumptions about the groups, not on this code.
- The byte encodings of proofs, blocks, transactions, votes and events: values are kept decoded, and heights need only an injective encoding.
- Machine words: lengths, heights, rounds and timestamps are unbounded, save for the bitsets, step counters, stakes, digits and words of base58, whose width is modelled; proofs of 32 or more rounds would wrap the counters of VerifScalars.
- InnerProduct.Generate: demands a non-empty G, a value in a and b when G has one point, and enough factors for H; the code panics without them.
- InnerProduct.Verify: demands a factor for every point of H; the code panics without them.
- RangeProver.Prove: leaves out the debugging checks, looks at y and z before it uses them instead of after, and returns the package variable M, which Verify is then given.
- RangeProof.Verify: demands a commitment for each of the M values, and a field in which 1 + 1 is not zero.
- Mlsag.Proof.Prove: demands at least one decoy and no other row without the mark; a ring of one makes the code index an empty list of responses.
- Mlsag.DualKeyProve: subtracting the commitment from the decoys is not part of it.
- Aliasing of slices: the matrix of keys, the challenges, the sorted sets and the stakes of members are values in fields, so sharing between holders is not captured.
- Agreement.StepVotes.Add: demands that a tally at a step other than 0 has a signature, as every tally without an earlier error has; the code dereferences nil otherwise. Aggregate keeps the tallies as values in its map and not as pointers.
- Agreement.VoteAndCertify: committees are a parameter and have at most 64 members, as the committee package makes them; the signature on the event itself is left out.
- Accumulator.EventFilter.Accumulate: makes its claim about batches only while the round and step have not moved since the accumulator was made; senders of agreement events need not be distinct in the code, so the claim is made for reduction votes.
- Provisioners.Provisioners.AddMember: a key is the number its bytes stand for, so two byte strings of one value are one key.
- Sortition.CreateVotingCommittee: demands what the code needs to end: a positive total weight, no more seats than active members, and a positive stake among the first keys, of which there are as many.
- ReductionSteps.Node.StartReduction: at most one goroutine is live; timers are steps that can happen at any time, and the votes that a node sends itself are left out.
- Mempool.Mempool.OnPendingTx: the verification against the chain is a parameter; sizes and times of transactions are left out.
- Chain.Chain.AcceptBlock: whether the certificate is valid is a parameter, proved elsewhere for certificates made from votes; publishing, provisioners, bids and candidate blocks are left out.
- Chain.CheckBlock: the checks for duplicates inside one transaction are parameters, because no property rests on them.
- Rebuilding provisioners and bids from the database, absentee lists, the dupe map, the ring buffer, the event bus, timeouts and the wallet: they would only add easy members.
