# seq-hash in Dafny

A model of the k-mer hashers of the Rust crate `seq-hash`, with proofs about them.

A k-mer hasher maps every window of `k` consecutive bases of a DNA sequence to a 32-bit hash. It does this in one streaming pass: a closure takes the incoming base and the outgoing base and updates a few registers. The model covers three hasher families.

- **`NtHasher`**: ntHash. Table lookups are combined by rotating by `R = 7` and XOR-ing. The canonical variant adds a reverse-complement register with wrapping addition.
- **`MulHasher`**: the same rolling scheme. The lookups are multiplications by a mixing constant, so it accepts any byte.
- **`AntiLexHasher`**: packs the last (at most 16) two-bit bases into one word, newest on top, with that top base inverted. The canonical variant also packs the reverse complement of the first (at most 16) bases and returns the smaller word.

The model has six modules.

- `Bits`: rotations and shifts by a run-time amount, written out bit by bit.
- `Order`: the unsigned order on words.
- `Symbols`: bases, complement and reverse complement, zero padding and windows.
- `NtHash`: the `CharHasher` interface, `NtHasher`, `MulHasher` and the generic rolling hash over them.
- `AntiLex`: `AntiLexHasher`, its closures, and the words they compute.
- `SeqHash`: the `KmerHasher` interface over all three families. Its closures are classes whose fields are the captured registers. Its default methods `hash_kmer`, `hash_prefixes` and `hash_kmers_scalar` are methods with loops.

Each closure is specified against an independent definition of the hash of a sequence:

- for the character hashers, the one-pass hash `OnePassHash`;
- for the `AntiLexHasher`, `ForwardHash` and `CanonicalHash`.

The streaming `hash_kmers_scalar` is proved equal to `KmerStream`, the list of hashes of every k-mer computed one by one. This is the equivalence the crate's tests check against the naive hashing of each window. For canonical hashers, the stream of the reverse complement is proved to be the reversed stream.

Where the code disagrees with its interface or its intent, the model follows the intent and the "## Findings" table records the difference. Two places where the Rust code cannot be taken literally are resolved as follows:

- Both `AntiLexHasher` impls declare `const CANONICAL` (`src/anti_lex.rs:53`, `:102`). The trait asks for `const RC` and `is_canonical` reads it (`src/lib.rs:16-19`). The model reads `CANONICAL` as the hasher's `RC` (`SeqHash.IsCanonical`).
- The equivalence test calls `hash_seq` on each window (`src/test.rs:54`). `src/lib.rs` defines no such method. The model reads it as `hash_kmer` (`SeqHash.HashKmer`), whose value on a k-mer is the k-mer's hash (`SeqHash.PrefixHashOfKmer`).

## Model

| member | source | states |
|---|---|---|
| NtHash.ConstantsTruncated | src/nthash.rs:12-17 | The four seeds and the mixing constant are the low 32 bits of the original 64-bit ntHash constants. |
| NtHash.NtTables | src/nthash.rs:60-68 | `f` is the seed table and `c` is `f` of the complement. The pre-rotated tables are `f` and `c` rotated by the given amount. The eight-lane tables repeat the four-entry ones twice. |
| NtHash.NtTablesValidFor | src/nthash.rs:60-68 | Tables built with the rotation `R * (k - 1)` fit the rolling hash of k-mers: `c(b) = f(comp b)`, and `f_rot`/`c_rot` are `f`/`c` rotated by the distance a base travels across the window. |
| NtHash.NtNew | src/nthash.rs:56-88 | The constructed hasher has the tables of `NtTables` with the rotation `R * (k - 1)`: `f` is `HASHES_F`, `c` its complement, the pre-rotated and eight-lane tables built from them. It fits k-mers of length `k` and its eight-lane lookups agree with the scalar ones. `fw_init` and `rc_init` are the forward and reverse-complement registers of `k - 1` zero bases. |
| NtHash.MulNew | src/nthash.rs:133-137 | The hasher with rotation count `(k - 1) mod 32` fits k-mers of length `k`, and its eight-lane lookups agree with the scalar ones. |
| NtHash.MulValidFor | src/nthash.rs:139-152 | With `rot = (k - 1) mod 32`, the multiplicative lookups satisfy `c = f ∘ comp`, and `f_rot`/`c_rot` rotate by `rot * R`, which is `R * (k - 1)` modulo 32. |
| NtHash.MulSimdAgrees | src/nthash.rs:154-169 | Every lane of the eight-lane multiplicative lookups is the scalar lookup of that lane's byte. |
| NtHash.FwSnoc | src/nthash.rs:179 | Appending a base to the forward register's input rotates the register left by `R` and XORs in `f` of the base. |
| NtHash.RcSnoc | src/nthash.rs:181 | Appending a base to the reverse-complement register's input rotates the register right by `R` and XORs in `c_rot` of the base. |
| NtHash.FwCons | src/nthash.rs:179 | The first base of the input contributes `f` of it, rotated by `R` times the number of bases after it. |
| NtHash.RcMirror | src/nthash.rs:181 | The reverse-complement register of a sequence is the forward register of its reverse complement, rotated by `R * (k - length)`. |
| NtHash.CanonicalRevComp | src/nthash.rs:175-187 | For a canonical hasher, a k-mer and its reverse complement have the same one-pass hash. |
| NtHash.FwRemove | src/nthash.rs:201 | XOR-ing out `f_rot` of the first base of a k-mer leaves the forward register of the remaining `k - 1` bases. |
| NtHash.RcRemove | src/nthash.rs:204 | XOR-ing out `c` of the first base of a k-mer leaves the reverse-complement register of the remaining `k - 1` bases. |
| NtHash.MapperStepSpec | src/nthash.rs:175-187 | One `mapper` step on the registers of `y` gives the registers of `y + [a]`, and its value is the one-pass hash of `y + [a]`. |
| NtHash.InOutStepSpec | src/nthash.rs:199-209 | Take the registers of a `(k - 1)`-window `w`, then one in-out step that adds `a` and removes the first base of `w + [a]`. The step returns the one-pass hash of the k-mer `w + [a]` and leaves the registers of its last `k - 1` bases. |
| NtHash.Prime | src/nthash.rs:190-197 | After the priming loop, `fw` is the forward register of `k - 1` zero bases. `rc` is their reverse-complement register for a canonical hasher and 0 otherwise. |
| NtHash.PrimeSimd | src/nthash.rs:213-223 | The splatted priming puts, in each of the eight lanes, the scalar primed registers. |
| NtHash.SimdLane | src/nthash.rs:225-236 | In every lane, one eight-lane in-out step computes the scalar step on that lane's bases: the new registers, the removal and the returned value. |
| NtHash.InvertedTestNotCanonical | src/nthash.rs:180 | With the test inverted as written, a canonical `MulHasher` for `k = 1` gives base A and its reverse complement T different first values, while their one-pass hashes agree. |
| NtHash.InvertedTestOutputs | src/nthash.rs:175-187 | As written, the first call of a canonical `MulHasher`'s mapper for `k = 1` gives 0 for A and `0x4e44152a` for T. |
| NtHash.CanonicalOneBase | src/nthash.rs:175-187 | For a canonical hasher with `k = 1`, bases A and T have the same one-pass hash. |
| NtHash.RotationAsWrittenBreaksRemoval | src/nthash.rs:59-63 | With the tables rotated by `k - 1` as written, for `k = 2` the step that adds A and removes A does not leave the register of `[A]`. |
| AntiLex.New | src/anti_lex.rs:33-49 | `b = 2`. `shift` places a base at the top of a word covering `min(k, 16)` bases, at most 30. `anti` is the two bits of that top base. `mask` keeps the low `min(k, 16)` bases. |
| AntiLex.CanonicalDelay | src/anti_lex.rs:110-112 | The saturating `k - 16` is the number of bases that, added to the at most 16 bases the canonical word covers, make up the k-mer. It is at most `k - 1`. |
| AntiLex.Min | src/anti_lex.rs:133 | `min` returns one of its arguments, and that argument is below or equal to both. |
| AntiLex.PackSnoc | src/anti_lex.rs:128-131 | Packing one more base puts its two bits just above the bases already packed. |
| AntiLex.PackInjective | src/anti_lex.rs:1-4 | At most 16 bases of equal length are determined by their packed word. |
| AntiLex.ForwardInjective | src/anti_lex.rs:1-4 | For `k <= 16` the forward hash is injective on k-mers. |
| AntiLex.ForwardLast16 | src/anti_lex.rs:4 | For `k >= 16` the forward hash depends only on the last 16 bases. |
| AntiLex.CanonicalEnds16 | src/anti_lex.rs:16 | For `k >= 16` the canonical hash depends only on the first 16 and the last 16 bases. |
| AntiLex.CanonicalMinOfStrands | src/anti_lex.rs:16 | The canonical hash of a k-mer is the smaller of the forward hashes of the k-mer and of its reverse complement. |
| AntiLex.CanonicalRevComp | src/anti_lex.rs:16 | A k-mer and its reverse complement have the same canonical hash. |
| AntiLex.FwStepSpec | src/anti_lex.rs:66 | One forward step moves the packed window of the last `m` bases to the window ending in the new base. |
| AntiLex.RcStepSpec | src/anti_lex.rs:155 | One reverse-complement step moves the packed reverse complement of the last `m` bases to that of the window ending in the new base. |
| AntiLex.InOutFwStep | src/anti_lex.rs:61-69 | With the constructor's `shift`, the in-out forward step keeps the packed window of the last `min(k, 16)` incoming bases. |
| AntiLex.InOutRcStep | src/anti_lex.rs:147-157 | With the constructor's `mask`, the canonical in-out step keeps the packed reverse complement of the last `min(k, 16)` outgoing bases. |
| AntiLex.InOutForwardHash | src/anti_lex.rs:67 | The forward in-out closure's value is the forward hash of the k-mer just completed. |
| AntiLex.InOutCanonicalHash | src/anti_lex.rs:156 | The canonical in-out closure's value, with outgoing bases delayed by `CanonicalDelay`, is the canonical hash of the k-mer just completed. |
| AntiLex.MapperWidth | src/anti_lex.rs:85-91 | The width the forward `mapper` covers lies between 1 and 16. |
| AntiLex.MapperMatchesNew | src/anti_lex.rs:85-91 | For a non-empty sequence the forward `mapper`'s `shift` and `anti` are those of the constructor for `k = n`. |
| AntiLex.MapperForwardHash | src/anti_lex.rs:83-98 | After the whole sequence, the forward `mapper`'s value is the forward hash of the sequence. |
| AntiLex.PrefixMatchesNew | src/anti_lex.rs:135-139 | After `k - 1` calls the canonical `mapper`'s `shift`, `anti` and `mask` are those of the constructor for `k`. |
| AntiLex.PrefixCanonicalHash | src/anti_lex.rs:125-133 | The canonical `mapper`'s words give the canonical hash of the prefix read. |
| AntiLex.PrefixCall | src/anti_lex.rs:124-143 | One canonical `mapper` call keeps the closure in the state of the longer prefix and returns the canonical hash of that prefix. |
| AntiLex.SimdLane | src/anti_lex.rs:72-171 | In every lane, the eight-lane forward step (`:72-80`) computes the scalar forward step and value on that lane's bases. The canonical step (`:161-171`) computes the scalar forward and reverse-complement steps, and its value is their minimum. |
| Order.Antisym | src/anti_lex.rs:133 | The unsigned order on words is antisymmetric, so `min` is well defined on equal values. |
| SeqHash.Delay | src/lib.rs:27-29 | `k - 1` by default. For the canonical `AntiLexHasher`, the delay plus the at most 16 bases it compares makes `k`. Never more than `k - 1`. |
| SeqHash.KmerStream | src/test.rs:51-55 | The naive reference has one hash per k-mer: `n + 1 - k` values for `n >= k - 1`, otherwise none. |
| SeqHash.StreamSnoc | src/test.rs:51-55 | One more base extends the reference stream by the hash of the k-mer it completes. |
| SeqHash.PrefixHashOfKmer | src/lib.rs:39-41 | On a k-mer, the value of the prefix mapper after the last base is the k-mer's hash. |
| SeqHash.StreamIsKmerHashes | src/test.rs:51-62 | Entry `j` of the stream is `hash_kmer` of the window at `j`. |
| SeqHash.InOutValueIsKmerHash | src/lib.rs:54-62 | With outgoing bases lagged by `delay()` and zero-padded, the in-out value after base `t` is the hash of the k-mer ending at `t`. |
| SeqHash.KmerHashRevComp | src/lib.rs:15-16 | A canonical hasher gives a k-mer and its reverse complement the same hash. |
| SeqHash.StreamRevComp | src/test.rs:111-141 | For a canonical hasher, the stream of the reverse complement is the reversed stream. |
| SeqHash.Mapper.constructor | src/lib.rs:31-32 | A fresh `mapper` of any family holds the empty prefix. The character hashers start with zero registers (`src/nthash.rs:176-177`). The forward `AntiLexHasher` takes the `shift` and `anti` of the sequence's length (`src/anti_lex.rs:85-93`). The canonical one starts in the state for one base (`src/anti_lex.rs:117-123`). |
| SeqHash.Mapper.Call | src/lib.rs:31-32 | For every family, each call appends the base to the prefix read so far and returns the hash of that prefix. |
| SeqHash.Mapper.CallChar | src/nthash.rs:175-187 | For the character hashers, each call appends the base and returns the one-pass hash of the prefix. |
| SeqHash.Mapper.CallForward | src/anti_lex.rs:83-98 | For the forward `AntiLexHasher`, each call appends the base and returns the packed, top-inverted window of the prefix at the sequence's width. |
| SeqHash.Mapper.CallCanonical | src/anti_lex.rs:115-144 | For the canonical `AntiLexHasher`, each call appends the base, keeps the closure's prefix state, and returns the canonical hash of the prefix. |
| SeqHash.CharCall | src/nthash.rs:199-209 | One in-out step of a character hasher keeps the primed registers of the last `k - 1` incoming bases and returns the hash of the window just completed. |
| SeqHash.InOutMapper.constructor | src/nthash.rs:189-197 | A fresh in-out closure holds no bases. The character hashers start from the registers of `k - 1` zeros. The `AntiLexHasher` starts from zero words (`src/anti_lex.rs:64`, `:150-151`). |
| SeqHash.InOutMapper.Call | src/lib.rs:33-34 | For every family, each call records the incoming and outgoing bases and returns the in-out value of the bases so far. |
| SeqHash.InOutMapper.CallChar | src/nthash.rs:199-210 | For the character hashers, each call returns the one-pass hash of the last `k` incoming bases, zero-padded, given that the outgoing base is the one leaving that window. |
| SeqHash.InOutMapper.CallLex | src/anti_lex.rs:61-157 | For the forward `AntiLexHasher` (`:61-69`), each call returns the packed word of the last `min(k, 16)` incoming bases, zero-padded, with its top base inverted. For the canonical one (`:147-157`), it returns the smaller of that word and the packed reverse complement of the last `min(k, 16)` outgoing bases, top-inverted likewise. |
| SeqHash.HashKmer | src/lib.rs:39-41 | On a non-empty sequence, the hash of the whole sequence as a prefix. On an empty one, 0. |
| SeqHash.HashPrefixes | src/lib.rs:43-45 | One value per base: value `j` is the hash of the prefix ending at `j`. |
| SeqHash.PrimeDelay | src/lib.rs:54-56 | Feeds the first `delay()` bases (or all of them) with outgoing zeros. |
| SeqHash.PrimePairs | src/lib.rs:57-61 | Feeds bases until `k - 1` are in, each with the base `delay()` behind it. |
| SeqHash.Collect | src/lib.rs:62 | The remaining calls produce exactly the reference stream of k-mer hashes. |
| SeqHash.HashKmersScalar | src/lib.rs:48-63 | The streaming k-mer hashes equal the naive list of hashes of each k-mer. |

## Left out

- HashKmer: debug builds panic on an empty sequence. There the forward `AntiLexHasher` mapper computes `self.b * (k - 1)` with `k = 0` (`src/anti_lex.rs:87`), and `hash_kmer` builds the mapper before reading (`src/lib.rs:40`). The model follows the release build. `AntiLex.MapperWidth` maps length 0 to width 16, a mapper that is never called, and `SeqHash.HashKmer` returns 0.
- SeqHash.HashPrefixes: on an empty sequence, debug builds panic as for `hash_kmer`, because `hash_prefixes` also builds the mapper eagerly (`src/lib.rs:44`) and the forward `AntiLexHasher` mapper computes `self.b * (k - 1)` with `k = 0` (`src/anti_lex.rs:87`). The model follows the release build, where no call is made and the result is the empty list.
- SeqHash.Accepts: the `assert!(seq.bits_per_char() <= self.b)` panics of the `AntiLexHasher` closures (`src/anti_lex.rs:62,73,84,116,148,162`) become a requirement that every symbol is a base (`Symbols.AllBases`). The unchecked table reads of `NtHasher` (`src/nthash.rs:91-100`) are undefined behaviour past index 3, so `NtHasher` symbols are required to be bases as well. The panic paths are not modelled.
- SeqHash.HasherValid: requires `k >= 1`. With `k = 0`, `k as u32 - 1` (`src/nthash.rs:59`, `:135`) and `self.k() - 1` (`src/lib.rs:28`) underflow. `AntiLex.New` also underflows (`src/anti_lex.rs:35`) for `k = 0`.
- SeqHash.HasherValid: does not include agreement of the eight-lane lookups with the scalar ones. That agreement is proved for both constructors (`NtHash.NtNew`, `NtHash.MulNew`) and is a requirement of the lane lemma `NtHash.SimdLane`.
- NtHash.SimdLane: the eight-lane closures are modelled one step at a time, lane by lane. `hash_kmers_simd` (`src/lib.rs:66-72`) is not modelled. It is a wrapper that splits the sequence into eight chunks (`par_iter_bp_delayed`, `advance`, the `PaddedIt` padding), and the `packed_seq` iterators are not part of this model.
- NtHash.Entry: `table_lookup` past entry 7 of an eight-entry table, and the scalar tables past entry 3, read 0 in the model. Neither is reached, since every symbol is a base.
- NtHash.MulSimdAgrees: `simd_f_rot`/`simd_c_rot` rotate by shift-or, `(r << rot) | (r >> (32 - rot))` (`src/nthash.rs:162-168`). When `rot * R % 32 == 0` (for `k ≡ 1 mod 32`), this shifts a lane by 32, which depends on the `wide` crate's semantics. That crate is not part of this model. The model takes the intended lane rotation.
- Symbols.Comp: complement is `b ^ 2` on any byte, the rule the `AntiLexHasher` writes out (`src/anti_lex.rs:131,155`). `packed_seq::complement_base` and `complement_base_simd` are not part of this model. On bytes above 3, which only `MulHasher` takes, the model's complement may differ from theirs.
- SeqHash.Hasher: `CharHasher` has no `k()`. The blanket impl's closures take `k` (`src/nthash.rs:189`) where the trait passes the sequence (`src/lib.rs:32-36`). The model carries `k` in `Hasher.Char(ch, k)`.
- SeqHash.HashKmersScalar: returns the whole list of values. The Rust method returns a lazy iterator, and the model does not capture its laziness or the sharing of the `add` and `remove` iterators beyond the order in which bases are fed.
- Seeded constructors (`new_with_seed`, used in `src/test.rs:79`) are not part of this model; the seeds are fixed to `HASHES_F` and `C`.
- Plain-text sequences: ASCII input (`AsciiSeq`) and the packed-to-ASCII conversions of `packed_seq` are not modelled. Symbols are the bytes the closures receive.

## Findings

| source | as written | input that shows it | evidently intended | confidence | as-written member | corrected member |
|---|---|---|---|---|---|---|
| src/nthash.rs:180 | `if !Self::RC` (here and at `:202`): the reverse-complement register is added only when the hasher is not canonical. The eight-lane closure (`:228`) and the doc of `RC` (`src/lib.rs:15`) test `Self::RC`. | canonical `MulHasher`, k = 1: the base A (0) hashes to 0 and its reverse complement T (2) to `0x4e44152a` | add `rc` when the hasher is canonical, so that a k-mer and its reverse complement hash alike | not executed | NtHash.InvertedTestNotCanonical | NtHash.CanonicalRevComp |
| src/nthash.rs:59 | `rot = k - 1`: the pre-rotated tables of `NtHasher` are rotated by `k - 1` positions. `MulHasher` rotates by `rot * R` (`:146`). | forward `NtHasher`, k = 2: after the window [A], the step adding A and removing A does not leave the register of [A] | rotate by `R * (k - 1)`, the distance a base travels across the k-mer, so that removal cancels | not executed | NtHash.RotationAsWrittenBreaksRemoval | NtHash.InOutStepSpec |

