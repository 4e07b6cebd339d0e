# GF(2^419) arithmetic, modelled in Dafny

This project models the core of a small Rust library for the binary field
GF(2^419). The field is polynomials over GF(2) reduced modulo the
pentanomial F = x^419 + x^21 + x^14 + x + 1.

An element (`GF2Element`) is seven 64-bit words, with bit k of word i
standing for x^(64 i + k). The model covers:

- the word-level primitives `deg` and `modulo`;
- the field operations `add`, `mul`, `sqr`, `pow`, `trace`, `inverse`, `get_coef` and `From<[usize; 14]>`;
- the quadratic-equation solver (`halftrace`, `solve`);
- the parsers `from_str` (hexadecimal) and `from_str_bin`;
- the formatters `dispaly_as_poly`, `Display`, `LowerHex` and `Binary`.

The model has two levels:

- **Specification.** `Poly` gives polynomials as finite sets of exponents.
  Addition is symmetric difference and multiplication is carry-less
  convolution. `FieldSpec` gives reduction modulo F (`ModF`) and the field
  operations `FMul`, `FSqr`, `FPow`, `Frob`, `Trace`, `HalfTrace` and
  `Inverse`, with their algebra (congruence, uniqueness of the remainder,
  commutativity, associativity, distributivity, the Frobenius map, additivity
  of the trace and half-trace).
- **Code.** The code is imperative Dafny over `bv64` words and arrays: `Bits`,
  `Words`, `GF2`, `SolveSqEq`, `Core`, `Parsing` and `Display`. It follows
  the library's loops and branches. `Words.Elem` maps a word sequence to the
  polynomial it holds, and each method's `ensures` ties its result to the
  specification through it.

Facts that need F to be irreducible rest on one named hypothesis,
`FieldSpec.FieldHypothesis`: every nonzero reduced y satisfies
y^(2^419 - 1) = 1. A lemma that needs it has it in its `requires`. Such facts
include a · a⁻¹ = 1, the trace being 0 or 1, and the solver's roots being
roots.

## Model

| member | source | states |
|---|---|---|
| Words.ElemMod | src/lib.rs:9 | the words of `MOD` hold exactly x^419 + x^21 + x^14 + x + 1 |
| Words.DegMod | src/lib.rs:207-211 | `deg(MOD)` is 419 |
| Words.Deg | src/lib.rs:173-195 | the index of the highest set bit over all words, 0 for all-zero words (so zero and one share degree 0), and below 64 times the length |
| Words.Modulo | src/lib.rs:122-171 | the seven result words hold the remainder of the input modulo F; for an input of degree below 419 they are the input's first seven words unchanged |
| Words.Reduce | src/lib.rs:132-163 | the long-division loop keeps the remainder modulo F unchanged and ends with degree below 419 |
| Words.Step | src/lib.rs:138-162 | one iteration XORs in F shifted so that its leading term meets the top term, x^deg(x) |
| FieldSpec.StepLowers | src/lib.rs:132-163 | that XOR strictly lowers the degree, so the loop terminates |
| Words.ShiftedMod | src/lib.rs:139-158 | `local_mod_copy` holds F times x^(deg(x) - 419), the shift split into whole words and remaining bits |
| Words.PlaceMod | src/lib.rs:143-147 | `MOD` copied in at word `to_shift_digits`, zeros elsewhere |
| Words.ShiftModBits | src/lib.rs:149-158 | the bit shift with carry `prev` turns F x^(64 d) into F x^(64 d + bits) |
| Words.ShiftUp | src/lib.rs:150-157 | shifting every word up s bits and carrying each word's top s bits into the next is a shift of the whole polynomial by s, cut at 14 words |
| Words.XorInto | src/lib.rs:160-162 | the word-wise XOR adds the two polynomials |
| Words.Truncate | src/lib.rs:165-170 | the result is the first seven words |
| FieldSpec.ModFCongruent | src/lib.rs:122-171 | the remainder differs from the input by a multiple of F |
| FieldSpec.ModFReduced | src/lib.rs:122-171 | the remainder has degree below 419 |
| FieldSpec.ModFOfReduced | src/lib.rs:124-130 | reducing a polynomial of degree below 419 changes nothing |
| FieldSpec.ReducedCongruentUnique | src/lib.rs:122-171 | two reduced polynomials congruent modulo F are equal, so the remainder is unique |
| GF2.ZeroValue | src/lib.rs:19-21 | `ZERO` is the zero polynomial |
| GF2.OneValue | src/lib.rs:23-25 | `ONE` is the constant 1 |
| GF2.ValueInjective | src/lib.rs:12-16 | two elements are equal exactly when their words hold the same polynomial |
| GF2.GF2Element.New | src/lib.rs:26-30 | `new` is `ZERO` |
| GF2.GF2Element.Add | src/lib.rs:32-40 | each result word is the XOR of the two words, and the polynomial is the sum |
| Poly.AddComm | src/lib.rs:32-40 | addition is commutative |
| Poly.AddAssoc | src/lib.rs:32-40 | addition is associative |
| Poly.AddSelf | src/lib.rs:32-40 | a + a = 0 |
| Poly.AddZero | src/lib.rs:32-40 | a + 0 = a |
| Poly.AddBelow | src/lib.rs:32-40 | a sum of two reduced polynomials is reduced |
| GF2.GF2Element.Mul | src/lib.rs:42-58 | the product is the carry-less product of the two polynomials reduced modulo F |
| GF2.Product | src/lib.rs:43-53 | the 14-word buffer after the double loop holds the carry-less product |
| GF2.MulRow | src/lib.rs:46-52 | the inner loop for bit i of `self` adds `other` shifted by i when that bit is set |
| GF2.FlipProductBit | src/lib.rs:47-51 | one inner step flips bit i + j exactly when bit i of `self` and bit j of `other` are both set |
| GF2.ProductBit | src/lib.rs:49-51 | the masked, shifted AND of the two bits is the one-bit mask at position (i + j) % 64, or 0 |
| Poly.MulComm | src/lib.rs:42-58 | the carry-less product is commutative |
| Poly.MulAddLeft | src/lib.rs:279 | the carry-less product distributes over addition |
| FieldSpec.FMulComm | src/lib.rs:42-58 | `mul` is commutative |
| FieldSpec.FMulAssoc | src/lib.rs:42-58 | `mul` is associative |
| FieldSpec.FMulAddLeft | src/lib.rs:279 | (a + b) c = a c + b c, the identity the `eq1` test checks |
| FieldSpec.FMulOneLeft | src/lib.rs:23-25 | 1 · p is p reduced |
| GF2.GF2Element.GetCoefAsWritten | src/lib.rs:61-63 | `get_coef(n)` as written: bit n % 64 of word n / 7, that is, the coefficient of x^(64 (n / 7) + n % 64) |
| GF2.GetCoefAsWrittenMisreads | src/lib.rs:61-63 | for x^7, `get_coef(7)` as written answers false although x^7 is present |
| GF2.GF2Element.GetCoef | src/lib.rs:61-63 | the corrected reading, word n / 64: true exactly when x^n is present |
| GF2.GF2Element.Deg | src/lib.rs:65-67 | the degree of the element's polynomial |
| GF2.GF2Element.Pow | src/lib.rs:70-86 | the result is a^e in the field, including a^0 = 1 for every a |
| GF2.HighestSetBit | src/lib.rs:76 | the index h of the highest set bit of a positive exponent: e shifted right h places is 1 |
| GF2.PowStart | src/lib.rs:75-76 | before the loop, `result = ONE` is a^0, a raised to twice the (empty) bits above the highest set bit |
| GF2.PowBitStep | src/lib.rs:76-83 | after the multiply for bit i, `result` is a raised to the bits of e from i up; after bit 0 it is a^e |
| FieldSpec.FPowDouble | src/lib.rs:80-82 | squaring a^n gives a^(2 n): each square between two bits doubles the exponent read so far |
| FieldSpec.FPowOne | src/lib.rs:70-86 | a^1 is a reduced |
| FieldSpec.FPowAdd | src/lib.rs:70-86 | a^(m + n) = a^m a^n |
| GF2.GF2Element.Sqr | src/lib.rs:90-92 | the square is `mul(a, a)` |
| FieldSpec.FSqrAdd | src/lib.rs:90-92 | (x + y)^2 = x^2 + y^2 |
| GF2.GF2Element.Trace | src/lib.rs:95-103 | the result is a + a^2 + a^4 + ... + a^(2^418) |
| GF2.TraceStart | src/lib.rs:97 | the first squaring `out = a²` equals (a + a²) + a, the loop invariant at its start |
| FieldSpec.FSqrFrobSum | src/lib.rs:98-100 | one `out = (out + a)²` round extends the sum by one Frobenius power |
| FieldSpec.TraceAdd | src/lib.rs:95-103 | the trace is additive |
| FieldSpec.TraceIsBit | src/lib.rs:95-103 | under the field hypothesis the trace of a reduced element is 0 or 1 |
| GF2.GF2Element.Inverse | src/lib.rs:106-113 | the result is a^(2^419 - 2) |
| GF2.InverseChainPow | src/lib.rs:107-110 | after the squaring and i - 2 rounds of `out = (out · a)²`, `out` is a^(2^i - 2) |
| GF2.InverseFromChain | src/lib.rs:106-113 | after the 417 rounds, `out` is a^(2^419 - 2) |
| FieldSpec.InverseCorrect | src/lib.rs:106-113 | under the field hypothesis a · inverse(a) = 1 for nonzero reduced a |
| FieldSpec.InverseZero | src/lib.rs:106-113 | `inverse(ZERO)` is ZERO (zero is not special-cased) |
| GF2.GF2Element.FromWide | src/lib.rs:116-120 | `From<[usize; 14]>` yields the remainder modulo F, the first seven words when already reduced |
| SolveSqEq.HalfTrace | src/solve_sq_eq.rs:20-30 | the result is c + c^4 + c^16 + ... + c^(4^209), the 210 even Frobenius powers |
| SolveSqEq.HalfTraceStep | src/solve_sq_eq.rs:23-28 | an even round adds the next term and an odd round adds nothing |
| FieldSpec.HalfTraceAdd | src/solve_sq_eq.rs:20-30 | the half-trace is additive |
| FieldSpec.HalfTraceZero | src/solve_sq_eq.rs:20-30 | the half-trace of zero is zero |
| FieldSpec.HalfTraceEquation | src/solve_sq_eq.rs:38-39 | under the field hypothesis H(c)^2 + H(c) = c + Tr(c) |
| SolveSqEq.Solve | src/solve_sq_eq.rs:32-47 | `Err(NoSolution)` exactly when Tr(b / a^2) is nonzero; otherwise the pair a H(c), a (H(c) + 1); for a = 0 it is `Ok((ZERO, ZERO))` |
| SolveSqEq.RootsSum | src/solve_sq_eq.rs:38-45 | the two returned values add up to a |
| SolveSqEq.SolveZeroA | src/solve_sq_eq.rs:33-45 | for a = 0 the trace test passes and both roots are 0, whatever b is |
| SolveSqEq.RootsSolve | src/solve_sq_eq.rs:56-67 | under the field hypothesis, for nonzero a, both returned values satisfy x^2 + a x + b = 0 |
| SolveSqEq.NoRootWhenTraceNonzero | src/solve_sq_eq.rs:33-36 | under the field hypothesis, for nonzero a, `NoSolution` is right: no x satisfies the equation |
| Parsing.FromParseIntError | src/from_str.rs:21-25 | every integer parse error becomes `ConversionError` |
| Core.FromStrRadix | src/from_str.rs:42-44 | `from_str_radix` succeeds exactly on a nonempty digit string, which may start with '+', whose value fits in 64 bits, and returns that value; on empty input it fails with `Empty` |
| Parsing.Chunk | src/from_str.rs:37-50 | chunk i counted from the right is a nonempty string of at most w characters |
| Parsing.FullChunkStart | src/from_str.rs:41-44 | the slice `s[extra + j w .. extra + (j + 1) w]` read in round j is chunk fulls - 1 - j |
| Parsing.LeadingChunk | src/from_str.rs:48-50 | the leading `len % w` characters are the last chunk |
| Parsing.ReadChunks | src/from_str.rs:37-50 | the chunk loop succeeds exactly when every chunk parses, and then word k holds chunk k's value with zeros above |
| Parsing.ReadChunk | src/from_str.rs:42-45 | one chunk is stored at index i, or its parse error is returned |
| Parsing.ParseElement | src/from_str.rs:30-55 | too long gives `NotAnElementError`, a bad chunk gives `ConversionError`, and otherwise the result is the buffer reduced modulo F, or the buffer's first seven words when it is already reduced |
| Parsing.FromStr | src/from_str.rs:30-55 | hexadecimal: `NotAnElementError` exactly when longer than 112 characters; otherwise as `ParseElement` with 16-digit chunks |
| Parsing.FromStrBin | src/from_str.rs:59-84 | binary: `NotAnElementError` exactly when longer than 448 characters; otherwise as `ParseElement` with 64-digit chunks |
| Parsing.EmptyBuffer | src/from_str.rs:35-50 | the empty string fills no chunk, so the buffer is all zeros |
| Parsing.FromStrEmpty | src/from_str.rs:30-55 | parsing "" gives `Ok(ZERO)` |
| Parsing.FromStrBinEmpty | src/from_str.rs:59-84 | `from_str_bin("")` gives `Ok(ZERO)` |
| Display.DisplayAsPoly | src/display.rs:72-103 | the text is the polynomial form `PolyText` of the words |
| Display.WordTerms | src/display.rs:76-94 | one inner loop over word i appends `x^pow + ` for each set bit it scans, from bit 63 down |
| Display.Closing | src/display.rs:96-101 | the constant's digit and "]" complete the polynomial form |
| Display.CoefZero | src/display.rs:96 | `arr[0] & 1 == 1` tests the constant coefficient |
| Display.PolyTextShape | src/display.rs:72-103 | the text is "[", the terms for the exponents present from the top down to 1, then "1" or "0" for the constant, then "]" |
| Display.ExponentsPresent | src/display.rs:75-94 | a term appears for exponent k exactly when x^k is present |
| Display.ExponentsDescend | src/display.rs:75-94 | the terms appear in strictly descending order |
| Display.TermsDownExponents | src/display.rs:75-94 | the loop's text is the terms of that exponent list, in order |
| Core.DecValue | src/display.rs:81 | the decimal rendering of `pow` reads back as `pow` |
| Core.DecInjective | src/display.rs:81 | different exponents are rendered differently |
| Display.DisplayElement | src/display.rs:18-45 | the non-alternate `Display` text equals `dispaly_as_poly` of the element's words |
| Display.LowerHex | src/display.rs:62-70 | each word as 16 hexadecimal digits, word 6 first |
| Display.LowerHexShape | src/display.rs:62-70 | that text has 112 characters, all in 0-9 and a-f |
| Core.FormatDigitsValue | src/display.rs:65 | a word's zero-padded digits read back as the word |
| Core.FormatParse | src/display.rs:65 | `from_str_radix` of a word's zero-padded digits returns the word |
| Display.BinaryAsWritten | src/display.rs:50-60 | `Binary` as written: the 64 binary digits of each nonzero word, word 6 first, with zero words skipped |
| Display.BinaryCollides | src/display.rs:50-60 | x^64 + 1 and x^128 + 1 are different elements with the same `Binary` text |
| Display.Binary | src/display.rs:50-60 | `Binary` with every word written as 64 binary digits, word 6 first |
| Display.ParseWordsText | src/from_str.rs:37-50 | the chunks of a seven-word rendering are the words again, and the buffer is the words padded with zeros |
| Display.HexRoundTrip | src/from_str.rs:27-56 | parsing the `LowerHex` text of a reduced element gives the element back |
| Display.BinRoundTrip | src/from_str.rs:58-84 | parsing the full binary text of a reduced element with `from_str_bin` gives the element back |

## Left out

- The demo program `src/main.rs` and the timing harness in the repository's `performance` example are not part of this model. They are printing, timing and random input only.
- The `vl_big_ints` big-integer crate is not modelled. The exponent of `pow` is an unbounded `nat`, and `get_highest_set_bit`/`get_bit` become `GF2.HighestSetBit`/`GF2.GetBit`.
- The alternate (`{:#}`) mode of `Display` is left out, and so are the `Display`/`Error` impls of the two error enums. They only write fixed text.
- The formatters build a `string`. The `fmt::Error` a `Formatter` write can report, and the `?` propagating it, are not modelled.
- No Dafny proof of the irreducibility of F. The facts that need it (a · a⁻¹ = 1, the trace being 0 or 1, the solver's roots, `NoSolution` being correct) are stated under `FieldSpec.FieldHypothesis`.
- `usize` is fixed at 64 bits and modelled as `bv64`. Then `DIM` = 7 and the text limits are 112 and 448.
- Strings are `seq<char>`, and lengths count characters. The source's `s.len()` counts UTF-8 bytes: for non-ASCII input the limits differ, and slicing inside a multi-byte character panics. Neither is modelled.
- Display.DisplayAsPoly: requires at least one word. On an empty slice the source underflows `pow` and indexes `arr[0]`, which panics. The source's `Ok(...)` wrapper is dropped, since it can never be an error.
- GF2.GF2Element.GetCoefAsWritten, GF2.GF2Element.GetCoef: `get_coef` indexes the seven-word array directly, so it panics for an index out of range. As written that is n ≥ 49 (n / 7 ≥ 7), and with the corrected word index n / 64 it is n ≥ 448. The model requires the index in range instead of modelling the panic.
- Display.DisplayElement: calls `DisplayAsPoly` instead of repeating the same two loops, which the source writes out a second time inside `Display::fmt`.
- Which chunk fails first is not recorded. Every failing chunk maps to the same `ConversionError`.
- GF2.GF2Element.Inverse: the count of 418 squarings and 417 multiplications is visible in the loop but not stated in the contract. Likewise for `Trace`.
- In `deg`, the source's `while biti >= 0` on an unsigned counter can never end through its guard. The model's bit scan ends on the set bit, which exists once the top nonzero word has been found. The unreachable `panic!` is not modelled.
- The tests' 419-bit hexadecimal fixtures (the concrete products, powers, traces and inverses) are not evaluated.

## Findings

| source | as written | input that shows it | evidently intended | confidence | as-written member | corrected member |
|---|---|---|---|---|---|---|
| src/lib.rs:61-63 | `get_coef(n)` reads word `n / DIM` (n / 7) | x = x^7 (word 0 = 0x80): `get_coef(7)` reads bit 7 of word 1 and returns false | read word `n / 64`, returning the coefficient of x^n | high (not executed) | GF2.GetCoefAsWrittenMisreads | GF2.GF2Element.GetCoef |
| src/display.rs:50-60 | `Binary` skips every all-zero word | x^64 + 1 (words 1, 1, 0, ...) and x^128 + 1 (words 1, 0, 1, ...) both render as two copies of the 64-digit form of 1 | write every word, as `LowerHex` does, so that the text determines the element and reads back through `from_str_bin` | medium (not executed) | Display.BinaryCollides | Display.BinRoundTrip |
