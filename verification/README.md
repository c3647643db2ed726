# Verified models of the Stenzel OS kernel

Dafny models of the algorithmic core of a kernel written in Rust, with proofs about them: the
big-number arithmetic and RSA of `crypto/rsa.rs`, the spinlocks of `sync.rs`, ChaCha20-Poly1305 of
`crypto/chacha20.rs`, the parallel service initializer of `boot/mod.rs`, the cgroup manager of
`cgroups/mod.rs`, AES with its modes in `crypto/aes.rs` and `crypto/luks.rs`, the streaming SHA-256 of
`crypto/sha256.rs` and the UTF-8 codec of `unicode.rs`. `dafny verify dfyconfig.toml` checks everything.

## Layout

| files | part of the kernel |
|---|---|
| NumberTheory, Bits, Limbs, LittleEndian, Words32, Options | arithmetic shared by the models: congruences, Euclid, Fermat, bitwise operators on naturals, byte strings |
| BigUint, BigShift, BigDivision, BigBytes | `BigUint` on 64-bit limbs |
| MillerRabin, RsaMath, Rsa | primality test, CRT, PKCS#1 v1.5 (sections 7.2 and 8.2 of RFC 8017) |
| TicketLock, RwLock, SeqLock | one step per atomic operation, any number of threads |
| PolyLimbs, PolyTag, Poly1305, ChaCha, Aead | RFC 8439 |
| ServiceGraph, ServiceNames, ServiceStack, ServiceOrder, ServiceInit, ServiceRuns | boot order and every run of starts and completions |
| CgroupPath, CgroupTree, Cgroups, CgroupRuns | hierarchy, accounting and every run of the manager |
| Circulant, AesField, AesSbox, AesBlock, AesModes, AesCode | FIPS 197, NIST SP 800-38A, IEEE 1619 |
| Sha256Block, Sha256, Sha256Constants, Sha256Bits | FIPS 180-4 |
| Utf8 | RFC 3629 |

Machine words are integers with explicit bounds and explicit wrap-around; AES bytes are bit-vectors.
Loops and objects of the source are methods and classes proved against functions, and the theorems
are about those functions. Randomness is a parameter: the bases of the primality test and the padding
of encryption are arbitrary inputs. `sign` and `verify` take the 32-byte digest of the message.

## What the code turns out to do

- CRT recombination (`crypto/rsa.rs`:637-647) leaves `h = p` unreduced when m1 < m2 and p divides the
  difference. `RsaMath.OvershootRange` shows that this happens exactly for p <= m < q, and
  `RsaMath.CrtExact` that the result is then m + n instead of m. With q < p it never happens.
- `decrypt` therefore answers None to a ciphertext of `encrypt` exactly when the padded block lies from p
  up to q (`Rsa.DecryptOfEncrypt`). Padded blocks are large: a key for which some message fails has
  p < 2^15, and `Rsa.DecryptUndoesEncryptIff` gives the exact condition, q above the least padded block.
  Every key whose p has 16 bits or more decrypts all it encrypted, in either order of the primes.
- `verify` accepts a signature of `sign` exactly when the modulus has k >= 62 bytes and s = m^d mod n does
  not satisfy both p <= s < q and s + n >= 256^k (`Rsa.VerifyOfSign`). For 54 to 61 bytes sign pads with
  fewer than eight 0xff bytes and verify refuses.
- The ticket lock excludes as long as at most 2^32 tickets are outstanding and, for each `try_lock` that
  succeeds, fewer than 2^32 tickets were unreleased at its load of now_serving or issued before its
  exchange; nothing is asked of the number of threads. Bounding the outstanding tickets and the tickets
  issued in the window separately is not enough. `TicketLock.OutstandingBoundTight` and
  `TicketLock.WindowBoundTight` give runs that break exclusion just beyond either bound.
- The reader-writer lock limits itself: at 2^31 readers the word looks write-locked, so no further thread
  gets in, and exclusion holds in every run without any bound. At that count, and only there, the flag
  and the low bits misreport the holders.
- A service that is not `parallelizable` is held back while anything is active, but `get_ready_services`
  does not look at the rest of its own list, nor at what kind of service is active: such a service can be
  handed out together with others and run beside them. `ServiceRuns.ExclusiveIff` gives the exact condition
  on the list and `ServiceRuns.NotExclusive` two services for which it fails.
- `init_order` lists dependents before their dependencies, because in-degrees are counted on the
  dependency end, and roots come out least urgent first, because the queue is sorted upwards and
  popped from its end: the first service is the least urgent root, the last in the alphabet among
  equals. Services freed later come before those freed earlier: with a, m and z of one priority, z
  depending on m, the order is z, m, a. Dependencies are respected at run time by `can_start`. A service that waits for a failed or
  deferred one stays Pending for ever, so `all_done` is then never reached.
- After a refused attach the index still names the old group although the process has left its list.
  A create that fails at the depth limit leaves the groups above the limit behind.
- `is_probably_prime` draws bases from an empty range for n = 3; the model's bases in [2, n - 2] then
  have to be the empty sequence.

## Model

| member | source | states |
|---|---|---|
| `BigUints.FromU64` | stenzel-os-x86-ultra/kernel/src/crypto/rsa.rs:35-37 | a word becomes a normalized number of the same value |
| `BigUints.IsZero` | stenzel-os-x86-ultra/kernel/src/crypto/rsa.rs:108-110 | true exactly for the value 0 |
| `BigUints.IsOne` | stenzel-os-x86-ultra/kernel/src/crypto/rsa.rs:113-115 | true exactly for the value 1 |
| `BigUints.IsEven` | stenzel-os-x86-ultra/kernel/src/crypto/rsa.rs:118-120 | true exactly for an even value, although only the lowest bit is looked at |
| `BigUints.Normalize` | stenzel-os-x86-ultra/kernel/src/crypto/rsa.rs:123-128 | drops leading zero limbs without changing the value; the result is the unique normalized form |
| `BigUints.Cmp` | stenzel-os-x86-ultra/kernel/src/crypto/rsa.rs:131-145 | limb-by-limb comparison decides the order of the values |
| `BigUints.AddSeqValue` | stenzel-os-x86-ultra/kernel/src/crypto/rsa.rs:148-163 | the limbs the carry loop produces have the value of the sum |
| `BigUints.AddLimbs` | stenzel-os-x86-ultra/kernel/src/crypto/rsa.rs:148-163 | the in-place carry loop computes exactly those limbs |
| `BigUints.Add` | stenzel-os-x86-ultra/kernel/src/crypto/rsa.rs:148-163 | the result is normalized and its value is the sum |
| `BigUints.SubSeqValue` | stenzel-os-x86-ultra/kernel/src/crypto/rsa.rs:166-184 | with self >= other the borrow loop, on signed 128-bit differences, has the value of the difference |
| `BigUints.SubLimbs` | stenzel-os-x86-ultra/kernel/src/crypto/rsa.rs:166-184 | the in-place borrow loop computes exactly those limbs |
| `BigUints.Sub` | stenzel-os-x86-ultra/kernel/src/crypto/rsa.rs:166-184 | the result is normalized and its value is the difference |
| `BigUints.RowSeqValue` | stenzel-os-x86-ultra/kernel/src/crypto/rsa.rs:194-203 | one row of schoolbook multiplication adds a limb times the other number |
| `BigUints.ProductBound` | stenzel-os-x86-ultra/kernel/src/crypto/rsa.rs:194-203 | a limb product plus a limb plus a carry fits the 128-bit accumulator |
| `BigUints.MulSeqValue` | stenzel-os-x86-ultra/kernel/src/crypto/rsa.rs:187-206 | all rows together add the product |
| `BigUints.MulLimbs` | stenzel-os-x86-ultra/kernel/src/crypto/rsa.rs:187-206 | the doubly nested in-place loop computes exactly those limbs |
| `BigUints.Mul` | stenzel-os-x86-ultra/kernel/src/crypto/rsa.rs:187-206 | the result is normalized and its value is the product |
| `BigShift.BitCount` | stenzel-os-x86-ultra/kernel/src/crypto/rsa.rs:99-105 | bits() is the length of the value in base 2: 2^(n-1) <= v < 2^n, and 0 for 0 |
| `BigShift.Shl` | stenzel-os-x86-ultra/kernel/src/crypto/rsa.rs:250-274 | left shift multiplies the value by 2^bits, for shifts that are and are not multiples of 64 |
| `BigShift.Shr` | stenzel-os-x86-ultra/kernel/src/crypto/rsa.rs:277-306 | right shift divides the value by 2^bits, also when everything is shifted out |
| `BigDivision.DivStep` | stenzel-os-x86-ultra/kernel/src/crypto/rsa.rs:224-239 | one round of long division keeps self = quotient * d + remainder and lowers the remainder |
| `BigDivision.DivRem` | stenzel-os-x86-ultra/kernel/src/crypto/rsa.rs:209-242 | long division terminates with self = q * d + r and r < d, which are the quotient and the remainder |
| `BigDivision.Modulo` | stenzel-os-x86-ultra/kernel/src/crypto/rsa.rs:245-247 | the remainder |
| `BigDivision.ModPowStep` | stenzel-os-x86-ultra/kernel/src/crypto/rsa.rs:318-324 | one round of square-and-multiply keeps result * base^exp modulo m |
| `BigDivision.ModPow` | stenzel-os-x86-ultra/kernel/src/crypto/rsa.rs:309-327 | self^exp mod m, including m = 1 |
| `BigDivision.SignedStep` | stenzel-os-x86-ultra/kernel/src/crypto/rsa.rs:353-383 | the sign cases of the magnitude arithmetic compute old - q * cur on integers |
| `BigDivision.ExtendedGcd` | stenzel-os-x86-ultra/kernel/src/crypto/rsa.rs:330-387 | the loop ends with the greatest common divisor g and signed coefficients with a * x + b * y = g |
| `NumberTheory.GcdGreatest` | stenzel-os-x86-ultra/kernel/src/crypto/rsa.rs:330-387 | every common divisor divides the number the loop ends with, so it is the greatest one |
| `BigDivision.ModInverse` | stenzel-os-x86-ultra/kernel/src/crypto/rsa.rs:390-402 | Some exactly when gcd(a, m) = 1; then a * x = 1 modulo m and, for m >= 2, 0 < x < m |
| `BigBytes.FromBytesBE` | stenzel-os-x86-ultra/kernel/src/crypto/rsa.rs:40-69 | the number read from big-endian bytes, leading zeros included |
| `BigBytes.ToBytesBE` | stenzel-os-x86-ultra/kernel/src/crypto/rsa.rs:72-87 | the shortest big-endian bytes of the value, one zero byte for 0 |
| `BigBytes.ToBytesBEPadded` | stenzel-os-x86-ultra/kernel/src/crypto/rsa.rs:90-96 | the same bytes padded on the left to a length, or unpadded if they are longer |
| `BigBytes.LimbsRoundTrip` | stenzel-os-x86-ultra/kernel/src/crypto/rsa.rs:40-87 | number to bytes to number is the identity on normalized limbs |
| `BigBytes.BytesRoundTrip` | stenzel-os-x86-ultra/kernel/src/crypto/rsa.rs:40-87 | bytes to number to bytes drops exactly the leading zeros |
| `MillerRabin.Decompose` | stenzel-os-x86-ultra/kernel/src/crypto/rsa.rs:797-805 | writes n - 1 as odd d times 2^s |
| `MillerRabin.Round` | stenzel-os-x86-ultra/kernel/src/crypto/rsa.rs:814-834 | one base passes exactly when a^d is 1 or some a^(d * 2^r), r < s, is n - 1; stopping early at 1 or at s - 1 squarings changes nothing |
| `MillerRabin.IsProbablyPrime` | stenzel-os-x86-ultra/kernel/src/crypto/rsa.rs:788-838 | for any bases in [2, n - 2]: true exactly for 2 and for odd n that are strong probable primes to every base; never rejects a prime |
| `MillerRabin.PrimePasses` | stenzel-os-x86-ultra/kernel/src/crypto/rsa.rs:788-838 | a prime is a strong probable prime to every base (Fermat, and only trivial square roots of 1) |
| `MillerRabin.PrimeIffAllBasesPass` | stenzel-os-x86-ultra/kernel/src/crypto/rsa.rs:788-838 | an odd n >= 3 is prime exactly if every base in [2, n - 2] passes |
| `RsaMath.CrtResidues` | stenzel-os-x86-ultra/kernel/src/crypto/rsa.rs:632-647 | for any order of p and q the recombination is congruent to m1 mod p and m2 mod q |
| `RsaMath.OvershootRange` | stenzel-os-x86-ultra/kernel/src/crypto/rsa.rs:637-641 | for the residues of m < n the factor h stays at p exactly when p <= m < q |
| `RsaMath.CrtExact` | stenzel-os-x86-ultra/kernel/src/crypto/rsa.rs:632-647 | the recombination of the residues of m < n returns m + n exactly for p <= m < q, and otherwise m |
| `RsaMath.CrtExactIffOrdered` | stenzel-os-x86-ultra/kernel/src/crypto/rsa.rs:632-647 | it returns every m < n exactly when q < p |
| `RsaMath.PrivateUndoesPublic` | stenzel-os-x86-ultra/kernel/src/crypto/rsa.rs:630-647 | the CRT private operation applied to m^e mod n returns m + n exactly for p <= m < q and otherwise m, for every m < n and every valid key pair |
| `RsaMath.PublicUndoesPrivate` | stenzel-os-x86-ultra/kernel/src/crypto/rsa.rs:705-722 | raising the CRT private result to e gives back m modulo n, in either order of the primes |
| `RsaMath.PrivateExact` | stenzel-os-x86-ultra/kernel/src/crypto/rsa.rs:705-722 | the private operation on any c returns s = c^d mod n, or s + n exactly for p <= s < q |
| `Rsa.NewPrivateKey` | stenzel-os-x86-ultra/kernel/src/crypto/rsa.rs:587-614 | the CRT parameters are the reduced exponents and the inverse of q; None exactly when q and p are not coprime |
| `Rsa.KeypairFromPrimes` | stenzel-os-x86-ultra/kernel/src/crypto/rsa.rs:729-755 | the part of key generation after the primes are chosen: succeeds exactly when 65537 is invertible and the primes are coprime, and then yields a valid key for odd primes |
| `Rsa.CrtPower` | stenzel-os-x86-ultra/kernel/src/crypto/rsa.rs:630-647 | the limb arithmetic of decrypt and sign computes the private operation on numbers |
| `Rsa.BlockBelowModulus` | stenzel-os-x86-ultra/kernel/src/crypto/rsa.rs:465-495 | a padded block, which starts with a zero byte, is always below n |
| `Rsa.BuildEncryptionBlock` | stenzel-os-x86-ultra/kernel/src/crypto/rsa.rs:472-488 | the loops write 0, 2, the padding, 0 and the data |
| `Rsa.Encrypt` | stenzel-os-x86-ultra/kernel/src/crypto/rsa.rs:465-495 | None exactly for data longer than k - 11; otherwise the padded block raised to e |
| `Rsa.UnpadIff` | stenzel-os-x86-ultra/kernel/src/crypto/rsa.rs:651-672 | unpadding yields data exactly for blocks of the bytes 0 and 2, at least eight non-zero bytes, 0, data |
| `Rsa.Decrypt` | stenzel-os-x86-ultra/kernel/src/crypto/rsa.rs:622-673 | the length check, the CRT power and unpadding |
| `Rsa.DecryptOfEncrypt` | stenzel-os-x86-ultra/kernel/src/crypto/rsa.rs:465-673 | for every valid key, message and non-zero padding, decrypting an encryption returns the data, or None exactly when the padded block lies from p up to q |
| `Rsa.DecryptUndoesEncryptIff` | stenzel-os-x86-ultra/kernel/src/crypto/rsa.rs:465-673 | all messages and paddings of a key come back exactly when q is at most the value of the least padded block |
| `Rsa.DecryptUndoesEncrypt` | stenzel-os-x86-ultra/kernel/src/crypto/rsa.rs:465-673 | with a p of 16 bits or more, or with q < p, it always returns the data |
| `Rsa.BuildSignatureBlock` | stenzel-os-x86-ultra/kernel/src/crypto/rsa.rs:682-702 | the loops write 0, 1, the 0xff bytes, 0, the SHA-256 prefix and the digest |
| `Rsa.PrefixIsDigestInfo` | stenzel-os-x86-ultra/kernel/src/crypto/rsa.rs:683-686 | prefix and digest are the DER encoding of a DigestInfo with the object identifier of SHA-256, 2.16.840.1.101.3.4.2.1 |
| `Rsa.Sign` | stenzel-os-x86-ultra/kernel/src/crypto/rsa.rs:676-725 | the padded private power of the signature block |
| `Rsa.CheckBlock` | stenzel-os-x86-ultra/kernel/src/crypto/rsa.rs:510-558 | the scan accepts exactly the signature block of that digest with at least eight 0xff bytes |
| `Rsa.Verify` | stenzel-os-x86-ultra/kernel/src/crypto/rsa.rs:498-559 | accepts exactly signatures of k bytes whose public power is that block |
| `Rsa.VerifyOfSign` | stenzel-os-x86-ultra/kernel/src/crypto/rsa.rs:498-725 | verify accepts a signature from sign exactly when k >= 62 and not both p <= s < q and s + n >= 256^k, for s the block raised to d modulo n; the latter never holds with q < p or with n + q <= 256^k |
| `TicketLock.Reachable` | stenzel-os-x86-ultra/kernel/src/sync.rs:59-125 | over every interleaving of the atomic steps with at most w outstanding tickets and bounded try_lock windows, tickets, serving number and owners stay consistent modulo the word size, for any number of threads |
| `TicketLock.MutualExclusion` | stenzel-os-x86-ultra/kernel/src/sync.rs:59-125 | under the same bounds at most one guard exists |
| `TicketLock.FirstComeFirstServed` | stenzel-os-x86-ultra/kernel/src/sync.rs:59-125 | guards are granted in ticket order and all but the last have been released |
| `TicketLock.OldestWaiterProceeds` | stenzel-os-x86-ultra/kernel/src/sync.rs:64-68 | if threads wait and none holds the lock, the oldest waiter's next poll ends in a guard |
| `TicketLock.LockTakesFree` | stenzel-os-x86-ultra/kernel/src/sync.rs:59-70 | lock on a lock without outstanding tickets ends in a guard after one poll |
| `TicketLock.TryLockIff` | stenzel-os-x86-ultra/kernel/src/sync.rs:74-92 | try_lock, run alone with fewer than w tickets outstanding, ends in a guard exactly if there is none, and otherwise changes nothing |
| `TicketLock.ReleaseFrees` | stenzel-os-x86-ultra/kernel/src/sync.rs:117-125 | after dropping the guard no thread holds the lock and the next ticket is served |
| `TicketLock.CasFindsLockFree` | stenzel-os-x86-ultra/kernel/src/sync.rs:74-92 | a try_lock exchange that succeeds inside its window finds no ticket outstanding |
| `TicketLock.WindowBoundTight` | stenzel-os-x86-ultra/kernel/src/sync.rs:74-92 | for every word size w >= 2, a run of two threads in which a try_lock window of exactly w tickets breaks exclusion |
| `TicketLock.OutstandingBoundTight` | stenzel-os-x86-ultra/kernel/src/sync.rs:59-68 | for every word size, after a run with w tickets outstanding one more ticket lets two threads hold the lock |
| `RwLock.WordParts` | stenzel-os-x86-ultra/kernel/src/sync.rs:433-578 | the mask operations split the word into the writer flag and the reader count |
| `RwLock.WordTellsHolders` | stenzel-os-x86-ultra/kernel/src/sync.rs:433-578 | in every reachable state there are at most 2^31 readers and one writer waiting or holding; the flag tells whether there is a writer, and the low bits count the read guards, exactly while there are fewer than 2^31 readers |
| `RwLock.WriterExcludesAll` | stenzel-os-x86-ultra/kernel/src/sync.rs:486-531 | in every run a write guard excludes every other guard |
| `RwLock.NoNewReaders` | stenzel-os-x86-ultra/kernel/src/sync.rs:433-482 | in every run no step adds a reader while a writer waits or holds |
| `RwLock.WaitingWriterProceeds` | stenzel-os-x86-ultra/kernel/src/sync.rs:486-513 | in every run, when the readers have left, the next load of the waiting writer ends in a write guard |
| `RwLock.StepByHolders` | stenzel-os-x86-ultra/kernel/src/sync.rs:433-578 | in every run each operation moves its thread, and no other, as the numbers of readers and writers say: an exchange succeeds exactly if it is not spurious, no writer waits or holds, the count is not full and the number of readers is the one loaded |
| `RwLock.WriteGetsIn` | stenzel-os-x86-ultra/kernel/src/sync.rs:486-513 | write, run alone while no writer waits or holds and the count is not full, makes its thread the one writer and keeps the readers; without readers it ends in a write guard |
| `RwLock.ReadGetsIn` | stenzel-os-x86-ultra/kernel/src/sync.rs:433-457 | read, run alone, adds its thread to the readers exactly if no writer waits or holds and the count is not full, and otherwise loops |
| `RwLock.TryReadIff` | stenzel-os-x86-ultra/kernel/src/sync.rs:460-480 | try_read, run alone, ends in a read guard exactly in that case, and otherwise changes nothing |
| `RwLock.TryWriteIff` | stenzel-os-x86-ultra/kernel/src/sync.rs:517-530 | try_write ends in a write guard exactly if there is no reader and no writer, whatever other threads are doing |
| `RwLock.DropReadLeaves` | stenzel-os-x86-ultra/kernel/src/sync.rs:552-557 | dropping a read guard takes exactly its owner out of the readers |
| `RwLock.DropWriteFrees` | stenzel-os-x86-ultra/kernel/src/sync.rs:573-578 | dropping the write guard leaves no reader and no writer |
| `RwLock.ReaderBoundTight` | stenzel-os-x86-ultra/kernel/src/sync.rs:433-458 | a run reaches 2^31 readers, and the word then shows a writer that does not exist |
| `SeqLock.Reachable` | stenzel-os-x86-ultra/kernel/src/sync.rs:746-812 | over every interleaving with word-by-word reads and writes: one writer at a time, the counter counts increments, readers know what they read |
| `SeqLock.WritersExclude` | stenzel-os-x86-ultra/kernel/src/sync.rs:782-812 | two threads are never writers at once |
| `SeqLock.ReadReturnsSnapshot` | stenzel-os-x86-ultra/kernel/src/sync.rs:746-778 | a read that returns saw the complete data of one instant between two writes, provided fewer than half a counter cycle of writes fall inside the attempt |
| `SeqLock.DataIsLastStored` | stenzel-os-x86-ultra/kernel/src/sync.rs:782-812 | in every run each word has the value stored in it last |
| `SeqLock.ReadReturns` | stenzel-os-x86-ultra/kernel/src/sync.rs:746-778 | a read while no write is in progress returns the word asked for in one attempt; during a write its load changes nothing |
| `SeqLock.WriteGetsIn` | stenzel-os-x86-ultra/kernel/src/sync.rs:782-795 | write acquires its lock exactly if no other thread is writing |
| `SeqLock.WriteStores` | stenzel-os-x86-ultra/kernel/src/sync.rs:782-812 | a write that stores one word changes that word alone, raises the counter by two and leaves the lock free |
| `SeqLock.WriteBoundTight` | stenzel-os-x86-ultra/kernel/src/sync.rs:746-812 | with exactly half a cycle a run returns a mixture of old and new words |
| `PolyLimbs.ColumnBounds` | stenzel-os-x86-ultra/kernel/src/crypto/chacha20.rs:156-190 | the bounds of clamped r and of the loaded accumulator keep every 64-bit column sum far below overflow |
| `PolyLimbs.ColumnsAreProduct` | stenzel-os-x86-ultra/kernel/src/crypto/chacha20.rs:156-190 | the five columns hold h * r up to a multiple of 2^130 - 5 |
| `PolyLimbs.PartialReduce` | stenzel-os-x86-ultra/kernel/src/crypto/chacha20.rs:192-216 | the carry chain keeps the value modulo 2^130 - 5, loses no bits in its casts and restores the limb bounds |
| `PolyLimbs.MultiplyByR` | stenzel-os-x86-ultra/kernel/src/crypto/chacha20.rs:156-216 | h * r modulo 2^130 - 5 with the bounds the next block needs |
| `PolyLimbs.Cut` | stenzel-os-x86-ultra/kernel/src/crypto/chacha20.rs:145-154 | four words cut into five 26-bit limbs, with the optional bit 128, keep the number |
| `PolyLimbs.AddLimbs` | stenzel-os-x86-ultra/kernel/src/crypto/chacha20.rs:150-154 | the limb additions never wrap |
| `PolyTag.FullCarry` | stenzel-os-x86-ultra/kernel/src/crypto/chacha20.rs:220-240 | the full carry yields limbs below 2^26 of the same residue |
| `PolyTag.MinusP` | stenzel-os-x86-ultra/kernel/src/crypto/chacha20.rs:242-259 | the subtraction leaves the borrow in the top bit, set exactly when h < 2^130 - 5 |
| `PolyTag.ReduceOnce` | stenzel-os-x86-ultra/kernel/src/crypto/chacha20.rs:242-274 | the constant-time selection yields exactly the remainder modulo 2^130 - 5 |
| `PolyTag.Pack` | stenzel-os-x86-ultra/kernel/src/crypto/chacha20.rs:276-280 | packing into words drops exactly the bits from 128 up |
| `PolyTag.AddPad` | stenzel-os-x86-ultra/kernel/src/crypto/chacha20.rs:282-291 | the additions with carry are addition modulo 2^128 |
| `Poly1305Mac.ClampedLimbs` | stenzel-os-x86-ultra/kernel/src/crypto/chacha20.rs:109-117 | the five masked words of the key are the limbs of r under the 128-bit clamp of RFC 8439 |
| `Poly1305Mac.PadBlock` | stenzel-os-x86-ultra/kernel/src/crypto/chacha20.rs:138-143 | the 17-byte buffer holds the block, with a one byte after a short block that is not the last |
| `Poly1305Mac.Poly1305.constructor` | stenzel-os-x86-ultra/kernel/src/crypto/chacha20.rs:109-131 | a zero accumulator, the clamped r and the pad s |
| `Poly1305Mac.Poly1305.Block` | stenzel-os-x86-ultra/kernel/src/crypto/chacha20.rs:134-217 | the accumulator becomes (h + block) * r modulo 2^130 - 5, for both values of is_last |
| `Poly1305Mac.Poly1305.Finalize` | stenzel-os-x86-ultra/kernel/src/crypto/chacha20.rs:220-300 | the tag is (h mod 2^130 - 5) + s modulo 2^128, little-endian |
| `Poly1305Mac.AccumulateIsPolynomial` | stenzel-os-x86-ultra/kernel/src/crypto/chacha20.rs:304-322 | the accumulator loop evaluates the message polynomial at r modulo 2^130 - 5 |
| `Poly1305Mac.MacIsPolynomial` | stenzel-os-x86-ultra/kernel/src/crypto/chacha20.rs:304-322 | the authenticator is (polynomial at clamped r, mod 2^130 - 5) + s, mod 2^128 |
| `Poly1305Mac.Poly1305Tag` | stenzel-os-x86-ultra/kernel/src/crypto/chacha20.rs:304-322 | poly1305 returns that authenticator for every key and every message |
| `ChaCha.QuarterUndo` | stenzel-os-x86-ultra/kernel/src/crypto/chacha20.rs:11-27 | the quarter round can be run backwards on all inputs |
| `ChaCha.QuarterRound` | stenzel-os-x86-ultra/kernel/src/crypto/chacha20.rs:11-27 | the in-place steps on the state array are the quarter round at those four positions |
| `ChaCha.QuarterIsLines` | stenzel-os-x86-ultra/kernel/src/crypto/chacha20.rs:11-27 | the quarter round is the four lines of section 2.1 of RFC 8439 |
| `ChaCha.RoundsInjective` | stenzel-os-x86-ultra/kernel/src/crypto/chacha20.rs:56-69 | any number of rounds is a permutation of the states |
| `ChaCha.Permute` | stenzel-os-x86-ultra/kernel/src/crypto/chacha20.rs:56-69 | the loop applies the column and diagonal positions ten times |
| `ChaCha.InitialIsInput` | stenzel-os-x86-ultra/kernel/src/crypto/chacha20.rs:32-53 | the bytes of the initial state are "expand 32-byte k", the key, the counter and the nonce, in this order |
| `ChaCha.PositionsAreRounds` | stenzel-os-x86-ultra/kernel/src/crypto/chacha20.rs:59-68 | the positions of the column and diagonal rounds are the columns of the 4 x 4 state, and the columns with row r moved by r |
| `ChaCha.DoubleRounds` | stenzel-os-x86-ultra/kernel/src/crypto/chacha20.rs:58-69 | n passes of the loop are 2n rounds on columns and diagonals in turn |
| `ChaCha.BlockIsTwentyRounds` | stenzel-os-x86-ultra/kernel/src/crypto/chacha20.rs:30-82 | the block is twenty such rounds on the words of constant, key, counter and nonce, added to these words |
| `ChaCha.Chacha20Block` | stenzel-os-x86-ultra/kernel/src/crypto/chacha20.rs:30-82 | the block of section 2.3 of RFC 8439: twenty rounds on the words of constant, key, counter and nonce, added to these words, in little-endian bytes |
| `ChaCha.Chacha20Encrypt` | stenzel-os-x86-ultra/kernel/src/crypto/chacha20.rs:85-98 | byte i is xored with byte i mod 64 of the block at counter + i / 64, wrapping at 2^32 |
| `ChaCha.CryptTwice` | stenzel-os-x86-ultra/kernel/src/crypto/chacha20.rs:85-98 | encrypting twice is the identity |
| `ChaCha.CryptSplit` | stenzel-os-x86-ultra/kernel/src/crypto/chacha20.rs:85-98 | a message may be cut at any multiple of 64 bytes with the counter advanced, wrapping |
| `Aead.Pad16` | stenzel-os-x86-ultra/kernel/src/crypto/chacha20.rs:325-331 | the least number of zero bytes up to a multiple of 16 |
| `Aead.BuildMacInput` | stenzel-os-x86-ultra/kernel/src/crypto/chacha20.rs:347-354 | both callers assemble the same authenticated bytes |
| `Aead.MacInputInjective` | stenzel-os-x86-ultra/kernel/src/crypto/chacha20.rs:347-354 | the authenticated bytes determine the associated data and the ciphertext |
| `Aead.MacInputLayout` | stenzel-os-x86-ultra/kernel/src/crypto/chacha20.rs:325-388 | both parts are followed by zeros up to a multiple of 16, then come the length of the associated data and that of the ciphertext, as 64-bit little-endian numbers |
| `Aead.StreamLayout` | stenzel-os-x86-ultra/kernel/src/crypto/chacha20.rs:334-396 | the one-time key is bytes 0 to 31 of the key stream from counter 0, and byte i of the message meets byte 64 + i |
| `Aead.Encrypt` | stenzel-os-x86-ultra/kernel/src/crypto/chacha20.rs:334-359 | the ciphertext under counter 1 and the right tag |
| `Aead.SameTag` | stenzel-os-x86-ultra/kernel/src/crypto/chacha20.rs:384-388 | the accumulated difference is zero exactly when the tags are equal |
| `Aead.Decrypt` | stenzel-os-x86-ultra/kernel/src/crypto/chacha20.rs:362-396 | Some of the plaintext exactly when the tag is the recomputed one |
| `Aead.OpenedIffSealed` | stenzel-os-x86-ultra/kernel/src/crypto/chacha20.rs:334-396 | decryption yields p exactly for the outputs of encrypting p |
| `Aead.SealedUnique` | stenzel-os-x86-ultra/kernel/src/crypto/chacha20.rs:334-359 | encryption has one output for each input |
| `ServiceGraph.PeeledExact` | stenzel-os-x86-ultra/kernel/src/boot/mod.rs:360-374 | the peeled services are exactly those that no cycle leads to |
| `ServiceGraph.PeeledAllIffAcyclic` | stenzel-os-x86-ultra/kernel/src/boot/mod.rs:360-380 | all services are peeled exactly when no dependency walk returns to its start |
| `ServiceOrder.InDegrees` | stenzel-os-x86-ultra/kernel/src/boot/mod.rs:331-342 | the counts are the dependency entries that name each service, repeated entries included |
| `ServiceOrder.SortByPriority` | stenzel-os-x86-ultra/kernel/src/boot/mod.rs:351-356 | a permutation sorted by priority |
| `ServiceOrder.SortStable` | stenzel-os-x86-ultra/kernel/src/boot/mod.rs:351-356 | names of equal priority keep their order |
| `ServiceOrder.KahnState.UseKeeps` | stenzel-os-x86-ultra/kernel/src/boot/mod.rs:366-371 | using up one dependency entry: the saturating decrement is exact, and a service is queued exactly when its count reaches zero |
| `ServiceOrder.PopOne` | stenzel-os-x86-ultra/kernel/src/boot/mod.rs:360-374 | one pop appends the service and uses up its dependency entries, one after the other |
| `ServiceOrder.NextKeeps` | stenzel-os-x86-ultra/kernel/src/boot/mod.rs:360-374 | one pop keeps the loop invariant and shrinks the services left |
| `ServiceOrder.NextStacked` | stenzel-os-x86-ultra/kernel/src/boot/mod.rs:360-371 | the queue stays a stack: what a popped service frees comes on top, later entries of its list above earlier ones |
| `ServiceOrder.SortUpwards` | stenzel-os-x86-ultra/kernel/src/boot/mod.rs:344-356 | the roots are queued by priority, and alphabetically within one priority |
| `ServiceNames.Enumerate` | stenzel-os-x86-ultra/kernel/src/boot/mod.rs:331-349 | iteration over the map lists its names alphabetically |
| `ServiceNames.ListingUnique` | stenzel-os-x86-ultra/kernel/src/boot/mod.rs:331-349 | a set of names has one alphabetical listing |
| `ServiceOrder.OrderOf` | stenzel-os-x86-ultra/kernel/src/boot/mod.rs:326-374 | the order lists every service after all that depend on it; at each place stands, of the services whose dependents are all listed, the one freed last, as told by the dependency lists; the first is the least urgent root, the last in the alphabet among equals |
| `ServiceStack.OrderUnique` | stenzel-os-x86-ultra/kernel/src/boot/mod.rs:326-374 | these two properties determine the order of the registered services, cyclic or not |
| `ServiceInit.ParallelInitializer.ComputeOrder` | stenzel-os-x86-ultra/kernel/src/boot/mod.rs:326-381 | Ok exactly when the dependency graph is acyclic; then all services are listed once, each before the registered services it depends on; otherwise exactly those below no cycle are listed; in both cases in the order that the services determine, the one freed last first |
| `ServiceInit.ScanFacts` | stenzel-os-x86-ultra/kernel/src/boot/mod.rs:405-428 | the ready list has distinct startable names, at most as many as free slots, and is empty only if there are none |
| `ServiceInit.ScanExact` | stenzel-os-x86-ultra/kernel/src/boot/mod.rs:405-428 | the ready list is the first of all eligible names, in their order, as many as there are free slots |
| `ServiceInit.LeftOut` | stenzel-os-x86-ultra/kernel/src/boot/mod.rs:405-428 | an eligible name is left out only if all slots are taken by names earlier in the order |
| `ServiceInit.ParallelInitializer.GetReadyServices` | stenzel-os-x86-ultra/kernel/src/boot/mod.rs:405-428 | the loop returns that list |
| `ServiceInit.ParallelInitializer.MarkStarted` | stenzel-os-x86-ultra/kernel/src/boot/mod.rs:431-436 | the whole new state, including unregistered names |
| `ServiceInit.ParallelInitializer.MarkComplete` | stenzel-os-x86-ultra/kernel/src/boot/mod.rs:439-448 | the whole new state |
| `ServiceRuns.ParallelBound` | stenzel-os-x86-ultra/kernel/src/boot/mod.rs:384-455 | in every run at most max_parallel services are active, and their registered dependencies are Ready |
| `ServiceRuns.StartsAfterDependencies` | stenzel-os-x86-ultra/kernel/src/boot/mod.rs:384-436 | whenever a run starts a service its registered dependencies are Ready |
| `ServiceRuns.ChangedHaveReadyDependencies` | stenzel-os-x86-ultra/kernel/src/boot/mod.rs:384-448 | whatever left Pending during a run has only Ready dependencies at its end |
| `ServiceRuns.QuietMeansHopeless` | stenzel-os-x86-ultra/kernel/src/boot/mod.rs:384-428 | with nothing active and nothing ready, every Pending service waits, through Pending ones, for a Failed or Deferred one |
| `ServiceRuns.DoomedStaysPending` | stenzel-os-x86-ultra/kernel/src/boot/mod.rs:384-448 | such a service stays Pending in every continuation |
| `ServiceRuns.QuietMeansDone` | stenzel-os-x86-ultra/kernel/src/boot/mod.rs:384-455 | a run that can do nothing more has reached all_done if no service failed or was deferred |
| `ServiceRuns.RunsAreBounded` | stenzel-os-x86-ultra/kernel/src/boot/mod.rs:431-448 | every start and completion uses up one of at most two units of work per service |
| `ServiceRuns.EveryRunFinishes` | stenzel-os-x86-ultra/kernel/src/boot/mod.rs:384-455 | every run without failures extends to all_done, with exactly as many starts and completions as there was work, at most two for each service |
| `ServiceRuns.ExclusiveIff` | stenzel-os-x86-ultra/kernel/src/boot/mod.rs:405-428 | starting the whole ready list lets a service that is not parallelizable run alone exactly when the list is empty, or is one name with nothing active, or nothing active and nothing listed is to run alone |
| `ServiceRuns.NotExclusive` | stenzel-os-x86-ultra/kernel/src/boot/mod.rs:405-428 | two services without dependencies and two slots for which it does not |
| `CgroupPath.ParseIgnoresTrim` | stenzel-os-x86-ultra/kernel/src/cgroups/mod.rs:659-659 | trimming slashes before splitting and dropping empty pieces changes nothing |
| `CgroupPath.ParseJoin` | stenzel-os-x86-ultra/kernel/src/cgroups/mod.rs:713-713 | splitting undoes joining |
| `CgroupTree.FindNames` | stenzel-os-x86-ultra/kernel/src/cgroups/mod.rs:684-698 | a group is found under exactly one component list, the names above it |
| `CgroupTree.AddChildFind` | stenzel-os-x86-ultra/kernel/src/cgroups/mod.rs:555-568 | adding a child changes exactly one lookup |
| `CgroupTree.RemoveChildFind` | stenzel-os-x86-ultra/kernel/src/cgroups/mod.rs:571-583 | removing a leaf changes exactly its own lookup |
| `CgroupTree.GrowKeepsGroups` | stenzel-os-x86-ultra/kernel/src/cgroups/mod.rs:658-681 | growing the tree loses no group, changes none but in its children, and adds only empty unlimited ones |
| `CgroupRuns.CreatedExact` | stenzel-os-x86-ultra/kernel/src/cgroups/mod.rs:658-681 | create succeeds exactly for at most 31 components; then the path leads to its result, earlier lookups are unchanged, only prefixes of the path are new, and prefixes are left behind even on failure; existing groups keep members and limits, and new ones are empty and unlimited |
| `CgroupRuns.DeletedExact` | stenzel-os-x86-ultra/kernel/src/cgroups/mod.rs:701-722 | delete succeeds exactly on a non-root group without members and children and changes exactly that lookup; members and limits are untouched |
| `CgroupRuns.PathRoundTrip` | stenzel-os-x86-ultra/kernel/src/cgroups/mod.rs:606-618 | the printed path of every group in the tree leads back to it |
| `CgroupRuns.CgroupManager.Create` | stenzel-os-x86-ultra/kernel/src/cgroups/mod.rs:658-681 | the two nested loops |
| `CgroupRuns.CgroupManager.Get` | stenzel-os-x86-ultra/kernel/src/cgroups/mod.rs:684-698 | the walk along child entries |
| `CgroupRuns.CgroupManager.Delete` | stenzel-os-x86-ultra/kernel/src/cgroups/mod.rs:701-722 | the lookup of the parent by its joined path and the removal |
| `CgroupRuns.CgroupManager.Path` | stenzel-os-x86-ultra/kernel/src/cgroups/mod.rs:606-618 | the names collected upwards, reversed and joined |
| `CgroupRuns.CgroupManager.AttachProcess` | stenzel-os-x86-ultra/kernel/src/cgroups/mod.rs:725-740 | eviction, charge, membership and index |
| `CgroupRuns.CgroupManager.DetachProcess` | stenzel-os-x86-ultra/kernel/src/cgroups/mod.rs:748-754 | removal from the index and the member list |
| `CgroupRuns.CgroupManager.SetMax` | stenzel-os-x86-ultra/kernel/src/cgroups/mod.rs:360-362 | the new limit |
| `Cgroups.AttachedOutcome` | stenzel-os-x86-ultra/kernel/src/cgroups/mod.rs:725-740 | attach is refused exactly when the group without the process is at a non-zero limit; a success respects the limit; the process is then a member of that group alone, or of none if refused while the index keeps its old group; every other process stays where it was, every count is the number of members, and no limit changes |
| `Cgroups.AttachedAccounts` | stenzel-os-x86-ultra/kernel/src/cgroups/mod.rs:725-740 | attach keeps the accounts: counts equal member lists, no duplicates, members are indexed |
| `Cgroups.DetachedAccounts` | stenzel-os-x86-ultra/kernel/src/cgroups/mod.rs:748-754 | detach keeps the accounts and removes every trace of the process |
| `Cgroups.DetachedOutcome` | stenzel-os-x86-ultra/kernel/src/cgroups/mod.rs:748-754 | after detach the index is the old one without the process, a process is a member of a group exactly if it was and is not the one detached, every count is the number of members, and no limit changes |
| `Cgroups.RemoveFirstKeepsOrder` | stenzel-os-x86-ultra/kernel/src/cgroups/mod.rs:535-541 | the members that stay keep their order |
| `Cgroups.WithMaxOutcome` | stenzel-os-x86-ultra/kernel/src/cgroups/mod.rs:360-362 | set_max sets the limit of that group and of no other |
| `Cgroups.OnePlace` | stenzel-os-x86-ultra/kernel/src/cgroups/mod.rs:725-754 | a process is in at most one member list |
| `CgroupRuns.EveryRun` | stenzel-os-x86-ultra/kernel/src/cgroups/mod.rs:637-754 | over every run of create, delete, attach, detach and set_max the hierarchy stays a tree and the accounts stay right |
| `AesField.SubUndo` | stenzel-os-x86-ultra/kernel/src/crypto/aes.rs:9-46 | the inverse table undoes the S-box on all 256 bytes |
| `AesSbox.SubIsAffineInverse` | stenzel-os-x86-ultra/kernel/src/crypto/aes.rs:9-26 | each entry of the S-box is the affine map of the inverse in GF(2^8) of its index (section 5.1.1 of FIPS 197) |
| `AesSbox.MultipliersAreProducts` | stenzel-os-x86-ultra/kernel/src/crypto/aes.rs:52-81 | gf_mul2 to gf_mul14 are multiplications in GF(2^8) |
| `AesField.DoublingAdds` | stenzel-os-x86-ultra/kernel/src/crypto/aes.rs:52-56 | doubling is additive |
| `AesField.UnmixMix` | stenzel-os-x86-ultra/kernel/src/crypto/aes.rs:150-179 | the inverse matrix undoes the matrix on every column |
| `AesField.MixColumnIsMix` | stenzel-os-x86-ultra/kernel/src/crypto/aes.rs:150-162 | the four xors the code writes for a column are the circulant matrix |
| `AesField.MixColumnUndo` | stenzel-os-x86-ultra/kernel/src/crypto/aes.rs:150-179 | the formulas of inv_mix_columns undo those of mix_columns on every column |
| `AesSbox.MixIsPolynomialProduct` | stenzel-os-x86-ultra/kernel/src/crypto/aes.rs:150-163 | mix_columns multiplies the polynomial of a column by {03}x^3 + {01}x^2 + {01}x + {02} modulo x^4 + 1 |
| `Circulant.Pair.Undo` | stenzel-os-x86-ultra/kernel/src/crypto/aes.rs:150-179 | for any additive doubling a circulant matrix is inverted as soon as it is on one entry |
| `AesBlock.RowsRotate` | stenzel-os-x86-ultra/kernel/src/crypto/aes.rs:98-121 | shift_rows rotates row r by r places |
| `AesBlock.ShiftRowsInPlace` | stenzel-os-x86-ultra/kernel/src/crypto/aes.rs:98-121 | the in-place moves are that permutation |
| `AesBlock.InvShiftRowsInPlace` | stenzel-os-x86-ultra/kernel/src/crypto/aes.rs:124-147 | the in-place moves are the inverse permutation |
| `AesBlock.ColumnsInPlace` | stenzel-os-x86-ultra/kernel/src/crypto/aes.rs:150-179 | the column loop of both mixing functions, column by column in place |
| `AesBlock.EncryptBlock` | stenzel-os-x86-ultra/kernel/src/crypto/aes.rs:274-337 | the round loop in place, for 15 and for 11 round keys |
| `AesBlock.DecryptBlock` | stenzel-os-x86-ultra/kernel/src/crypto/aes.rs:297-357 | the inverse round loop in place |
| `AesBlock.BlockRoundTrip` | stenzel-os-x86-ultra/kernel/src/crypto/aes.rs:274-357 | for arbitrary round keys block decryption inverts block encryption |
| `AesBlock.UniformEncrypt` | stenzel-os-x86-ultra/kernel/src/crypto/aes.rs:274-337 | a block of one byte value under round keys of one byte value each goes through one substitution for each key after the first, with a key added before the first and after each |
| `AesBlock.LastRoundBytewise` | stenzel-os-x86-ultra/kernel/src/crypto/aes.rs:288-293 | the last round moves and substitutes bytes but does not mix them |
| `AesModes.CbcRoundTrip` | stenzel-os-x86-ultra/kernel/src/crypto/aes.rs:360-407 | CBC decryption recovers all whole blocks |
| `AesModes.CbcBlock` | stenzel-os-x86-ultra/kernel/src/crypto/aes.rs:360-381 | ciphertext block i is the cipher of plaintext block i plus the ciphertext block before it, or the initialization vector |
| `AesModes.CtrTwice` | stenzel-os-x86-ultra/kernel/src/crypto/aes.rs:410-436 | CTR applied twice is the identity |
| `AesModes.CtrByte` | stenzel-os-x86-ultra/kernel/src/crypto/aes.rs:410-436 | byte i is xored with byte i mod 16 of the cipher at counter nonce + i / 16 |
| `AesModes.CounterValue` | stenzel-os-x86-ultra/kernel/src/crypto/aes.rs:426-432 | that counter is nonce + i / 16 modulo 2^128 as a big-endian number |
| `AesModes.ShiftDoubles` | stenzel-os-x86-ultra/kernel/src/crypto/luks.rs:308-315 | the tweak shift doubles the 128-bit little-endian number |
| `AesModes.DoubleIsTimesX` | stenzel-os-x86-ultra/kernel/src/crypto/luks.rs:308-319 | the tweak doubling multiplies by x modulo x^128 + x^7 + x^2 + x + 1 |
| `AesModes.XtsBlockAt` | stenzel-os-x86-ultra/kernel/src/crypto/luks.rs:322-429 | output block i is the cipher between two additions of the tweak doubled i times |
| `AesModes.XtsRoundTrip` | stenzel-os-x86-ultra/kernel/src/crypto/luks.rs:322-429 | XTS decryption along the same doubling tweaks recovers the sector |
| `AesCode.ModesRoundTrip` | stenzel-os-x86-ultra/kernel/src/crypto/aes.rs:360-407 | with AES itself, for any fifteen round keys, CBC and XTS recover all whole blocks |
| `AesCode.CbcEncrypt` | stenzel-os-x86-ultra/kernel/src/crypto/aes.rs:360-381 | the block loop is CBC encryption |
| `AesCode.CbcDecrypt` | stenzel-os-x86-ultra/kernel/src/crypto/aes.rs:384-407 | the block loop is CBC decryption |
| `AesCode.Increment` | stenzel-os-x86-ultra/kernel/src/crypto/aes.rs:427-432 | the byte loop from the end with its early exit is the big-endian increment |
| `AesCode.CtrCrypt` | stenzel-os-x86-ultra/kernel/src/crypto/aes.rs:410-436 | the loop with a partial last block is CTR |
| `AesCode.DoubleInPlace` | stenzel-os-x86-ultra/kernel/src/crypto/luks.rs:308-319 | the in-place tweak doubling |
| `AesCode.XtsSector` | stenzel-os-x86-ultra/kernel/src/crypto/luks.rs:370-429 | both sector functions, with empty output for a bad key or sector length |
| `AesCode.SectorRoundTrip` | stenzel-os-x86-ultra/kernel/src/crypto/luks.rs:370-429 | with AES-256 and any round keys, decrypting an encrypted sector returns it |
| `Sha256Block.FillSchedule` | stenzel-os-x86-ultra/kernel/src/crypto/sha256.rs:126-145 | the schedule array satisfies the recurrence of FIPS 180-4 |
| `Sha256Block.Compress` | stenzel-os-x86-ultra/kernel/src/crypto/sha256.rs:125-189 | the 64-round loop is the recursive compression function |
| `Sha256Block.RoundInTurn` | stenzel-os-x86-ultra/kernel/src/crypto/sha256.rs:158-178 | the eight assignments one after the other are the round of section 6.2.2 |
| `Sha256Bits.RoundsAreRecurrences` | stenzel-os-x86-ultra/kernel/src/crypto/sha256.rs:147-178 | after n rounds the eight variables hold the last four values of each of two recurrences |
| `Sha256Constants.FirstPrimes` | stenzel-os-x86-ultra/kernel/src/crypto/sha256.rs:15-25 | the primes meant are the first 64: from 2 on, each the next prime after the one before |
| `Sha256Constants.ConstantsAreCubeRoots` | stenzel-os-x86-ultra/kernel/src/crypto/sha256.rs:15-25 | K[i] is the first 32 bits of the fractional part of the cube root of the i-th prime |
| `Sha256Constants.InitialIsSquareRoots` | stenzel-os-x86-ultra/kernel/src/crypto/sha256.rs:9-13 | the initial state holds the first 32 bits of the fractional parts of the square roots of the first eight primes |
| `Sha256Bits.ChBit` | stenzel-os-x86-ultra/kernel/src/crypto/sha256.rs:160-160 | bit by bit, ch takes the second word where the first has a one and the third elsewhere |
| `Sha256Bits.MajBit` | stenzel-os-x86-ultra/kernel/src/crypto/sha256.rs:166-166 | bit by bit, maj is the majority of the three words |
| `Sha256Bits.TurnBit` | stenzel-os-x86-ultra/kernel/src/crypto/sha256.rs:159-165 | each bit of a sum of three rotations is the sum of three bits further up, cyclically |
| `Sha256Bits.SlideBit` | stenzel-os-x86-ultra/kernel/src/crypto/sha256.rs:138-139 | the same for the sums of two rotations and a shift in the schedule |
| `Sha256.Hasher.Update` | stenzel-os-x86-ultra/kernel/src/crypto/sha256.rs:50-83 | for any split into updates the buffer holds exactly the unprocessed tail and the state is the fold over all whole blocks |
| `Sha256.Hasher.Finalize` | stenzel-os-x86-ultra/kernel/src/crypto/sha256.rs:86-122 | the digest of everything fed, padded in one block or in two |
| `Sha256.PaddingFits` | stenzel-os-x86-ultra/kernel/src/crypto/sha256.rs:88-114 | the zeros written are those of the padding rule in section 5.1.1 of FIPS 180-4 |
| `Sha256.PaddedLayout` | stenzel-os-x86-ultra/kernel/src/crypto/sha256.rs:86-114 | the padded message is the message, one bit, zeros and the 64-bit length in bits; whole blocks, and no more than needed |
| `Sha256.DigestWord` | stenzel-os-x86-ultra/kernel/src/crypto/sha256.rs:116-122 | the digest holds the eight words of the state, most significant byte first |
| `Sha256.BlockWord` | stenzel-os-x86-ultra/kernel/src/crypto/sha256.rs:127-135 | word i of a block is its i-th group of four bytes, most significant byte first |
| `Sha256.HashPieces` | stenzel-os-x86-ultra/kernel/src/crypto/sha256.rs:50-122 | a message fed in any pieces gives the digest of their concatenation |
| `Sha256.Hash` | stenzel-os-x86-ultra/kernel/src/crypto/sha256.rs:199-203 | one-shot hashing |
| `Utf8.DecodeUtf8` | stenzel-os-x86-ultra/kernel/src/unicode.rs:15-77 | the bit tests decode exactly as section 3 of RFC 3629 reads bytes, with the replacement character and its lengths on every error |
| `Utf8.DecodeIsGrammar` | stenzel-os-x86-ultra/kernel/src/unicode.rs:15-77 | what decodes without an error is exactly what the grammar in section 4 of RFC 3629 allows, with the length it has there |
| `Utf8.ErrorLength` | stenzel-os-x86-ultra/kernel/src/unicode.rs:15-77 | an error takes no byte of an empty input, all bytes of a complete sequence that is overlong, a surrogate or too large, and one byte otherwise |
| `Utf8.EncodeInto` | stenzel-os-x86-ultra/kernel/src/unicode.rs:81-119 | writes the encoding if the buffer can hold it and otherwise nothing |
| `Utf8.CharLen` | stenzel-os-x86-ultra/kernel/src/unicode.rs:122-134 | the length the lead byte announces |
| `Utf8.DecodeEncode` | stenzel-os-x86-ultra/kernel/src/unicode.rs:15-119 | decoding what starts with an encoding is no error and returns the scalar and its length |
| `Utf8.EncodeKeepsOrder` | stenzel-os-x86-ultra/kernel/src/unicode.rs:81-119 | encodings compare byte by byte as their scalars do |
| `Utf8.EncodeDecode` | stenzel-os-x86-ultra/kernel/src/unicode.rs:15-119 | decoding consumes 1 to 4 available bytes; it is an error exactly when the result does not re-encode to them, and the result is then the replacement character |
| `Utf8.StreamRoundTrip` | stenzel-os-x86-ultra/kernel/src/unicode.rs:15-119 | any sequence of scalars survives encoding and decoding |
| `Utf8.StreamExact` | stenzel-os-x86-ultra/kernel/src/unicode.rs:15-119 | bytes are the encoding of what they decode to exactly when no step is an error |

## Left out

- Weak memory: the locks are modelled with sequentially consistent atomics, one step per operation.
- Overflow of counters that count memory objects: limb and byte counts, `pids.current`, cgroup ids and the byte count of SHA-256 are taken not to overflow their machine words; where a bound matters it is a precondition (bit length below 2^64 for SHA-256).
- Rsa.Encrypt: requires at least 11 bytes in the modulus, because `k - 11` underflows below that; Rsa.Sign requires 54 for the same reason, and division and CRT require non-zero moduli, where the source panics.
- Rsa.KeypairFromPrimes: starts from given primes; the search of `generate_prime`, `random_odd` and `random_in_range` and the key size limits are not modelled.
- DER parsing of public keys, and key export.
- MillerRabin.IsProbablyPrime: the rejection-sampling loop that draws the bases is replaced by arbitrary bases, so its termination with probability one is not modelled.
- Constant-time behaviour of Poly1305 and of the tag comparison: only the values are modelled.
- The boot stages around the initializer: init functions, time estimates and `progress`.
- CgroupRuns.CgroupManager.AttachProcess: manager calls are atomic, as under the index lock; the compare-exchange loop of `try_charge` is one step, the counter of refused charges and the cpu, memory, io and freezer controllers are not modelled.
- AesBlock.EncryptBlock: the key schedules `expand_key_128` and `expand_key_256` are not modelled; all results hold for arbitrary round keys.
- AesCode.XtsSector: one method stands for the two sector functions, which differ only in the direction of the cipher; the mode loops of AesCode take the block cipher as a function, and AesBlock shows that the in-place code computes it.
- Sha256.Hasher.Update: the compression function is a parameter of the hasher; `Sha256Block.Compress` shows that the code computes it. HMAC and HKDF are not modelled.
- Raw, IRQ-safe and semaphore variants of the locks, X25519, Ed25519, LUKS headers and key slots, drivers, ACPI, file systems and the rest of the kernel.
