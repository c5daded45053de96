# PRODIGY_CS core, modelled in Dafny

This project models three small security tools and proves properties of them:

- **Pixel codec** (`CS_02/pixelManipulation.py`). It encrypts an RGBA image in two steps. First it permutes the flattened pixels with a seeded Fisher–Yates shuffle. Then it XORs the red, green and blue channels with a seeded keystream; alpha is left alone. Decryption undoes the XOR and then tries to undo the permutation.
- **Caesar cipher** (`CS_01/CaesarsCypher.py`). It rotates letters within their case by `shift`, modulo 26. The mode `'decrypt'` negates the shift.
- **Password strength checker** (`CS_03/passwordChecker.py`). It checks five criteria: length at least 8, a lower-case letter, an upper-case letter, a digit and a special character. From them it computes a score of `5 - failed`, one feedback message per failed criterion, and a rating: Strong, Moderate or Weak.

Modules:

- `Rng` (rng.dfy): a seeded generator. Draw `k` of a generator seeded with `s` is `source(s, k)`, where `source` is an arbitrary function. The class `Random` counts the draws taken.
- `Arithmetic` (arith.dfy): small facts about row-major indices.
- `Permutations` (permutation.dfy):
  - the Fisher–Yates shuffle, as a specification function and as an in-place method on an array;
  - `make_permutation` and `inverse_permutation`;
  - NumPy's gather (`x[perm]`) and scatter assignment (`y[idx] = x`).
- `Keystreams` (keystream.dfy): the `n x channels` keystream, filled row-major. Its generator is seeded with `seed + 0xFEED`.
- `PixelCodec` (codec.dfy): the flat-buffer encryption and decryption, as functions and as methods.
- `ImageCodec` (image.dfy): flattening a `height x width` raster and reshaping it back.
- `Caesar` (caesar.dfy): `caesar_cipher`.
- `PasswordChecker` (password.dfy): `check_password_strength`.

Every imperative routine of the modelled core is a Dafny method. Each method is proved equal to a specification function, and the properties are proved about those functions.

## Model

| member | source | states |
|---|---|---|
| Rng.Random.RandBelow | CS_02/pixelManipulation.py:24-26 | one shuffle draw: the next draw of the seeded generator, reduced into `[0, n)`; the draw counter advances by one |
| Rng.Random.GetRandBits8 | CS_02/pixelManipulation.py:47 | `getrandbits(8)`: the next draw as a byte; the draw counter advances by one |
| Permutations.ShuffleSteps | CS_02/pixelManipulation.py:26 | the Fisher–Yates steps `i, i-1, ..., 1`, each swapping position `i` with a draw from `[0, i]`; the length is kept |
| Permutations.Shuffled | CS_02/pixelManipulation.py:26 | `rng.shuffle(s)` on a generator that has made `k` draws; the length is kept |
| Permutations.Shuffle | CS_02/pixelManipulation.py:26 | in place, the array becomes the Fisher–Yates shuffle of its old contents (`ShuffleSteps`), and `n - 1` draws are consumed when `n > 0`, none when `n = 0` |
| Permutations.MakePermutation | CS_02/pixelManipulation.py:23-27 | the result is the shuffle of `0..n-1` for that seed, and it is a permutation of `0..n-1` |
| Permutations.ShuffleStepsPermutes | CS_02/pixelManipulation.py:25-26 | each step of the shuffle keeps a permutation of `0..n-1` a permutation |
| Permutations.PermutationIsBijection | CS_02/pixelManipulation.py:23-27 | `make_permutation(n, seed)` is a bijection on `0..n-1` for every seed and every generator |
| Permutations.PermutationDeterministic | CS_02/pixelManipulation.py:23-27 | the permutation depends only on the seed and the first `n - 1` draws (`_randbelow` calls): two generators that agree there give the same permutation |
| Permutations.SmallPermutationsAreInvolutions | CS_02/pixelManipulation.py:23-27 | every permutation of at most two elements is its own inverse |
| Permutations.InversePermutation | CS_02/pixelManipulation.py:29-32 | `inv[perm] = arange(n)` gives a permutation with `inv[perm[i]] == i` and `perm[inv[j]] == j` |
| Permutations.InverseIsInverse | CS_02/pixelManipulation.py:29-32 | the scatter that defines the inverse is a permutation and a two-sided inverse |
| Permutations.Gather | CS_02/pixelManipulation.py:59 | the gather `xs[idx]`: one element per index, each taken from `xs` |
| Permutations.Scatter | CS_02/pixelManipulation.py:31 | the scatter `out[idx] = xs` into a buffer, as one assignment per index in order; the buffer's length is kept |
| Permutations.Inverse | CS_02/pixelManipulation.py:29-32 | `inverse_permutation(perm)`, defined by the scatter `inv[perm] = arange(n)`; it has `perm`'s length |
| Permutations.ScatterAt | CS_02/pixelManipulation.py:87 | after `y[idx] = x` with a permutation `idx`, `y[idx[i]] == x[i]` |
| Permutations.ScatterAnyBase | CS_02/pixelManipulation.py:86-87 | what `np.empty_like` left in the buffer does not matter: scattering through a permutation overwrites every position |
| Permutations.ScatterByInverseIsGather | CS_02/pixelManipulation.py:85-87 | scattering through `inverse(perm)` is the same as gathering through `perm` |
| Permutations.ScatterUndoesGather | CS_02/pixelManipulation.py:59 | scattering through `perm` undoes gathering through `perm`, and the other way round |
| Keystreams.KeystreamBytes | CS_02/pixelManipulation.py:34-48 | with `channels` defaulting to 3, the nested loops fill the `n x channels` matrix with the draws of the generator seeded with `seed + 0xFEED` |
| Keystreams.Keystream | CS_02/pixelManipulation.py:34-48 | the matrix `keystream_bytes(n, seed, channels)` returns: `n` rows of `channels` bytes |
| Keystreams.KeystreamRowMajor | CS_02/pixelManipulation.py:45-47 | draw `k` lands at pixel `k / channels`, channel `k % channels` |
| Keystreams.KeystreamDeterministic | CS_02/pixelManipulation.py:41-48 | the keystream depends only on the first `n * channels` draws of the generator seeded with `seed + 0xFEED` |
| PixelCodec.MaskKeepsAlpha | CS_02/pixelManipulation.py:61-64 | XOR leaves alpha unchanged; a pixel is unchanged exactly when its keystream row is zero |
| PixelCodec.MaskTwiceIsIdentity | CS_02/pixelManipulation.py:80-81 | XOR with the same keystream twice gives back the pixels |
| PixelCodec.Mask | CS_02/pixelManipulation.py:64 | XOR of channels 0..2 of each pixel with its keystream row (also the unmasking at line 81); the length is kept |
| PixelCodec.Encrypt | CS_02/pixelManipulation.py:54-64 | the flat buffer `encrypt_image` produces: gather by the permutation, then mask; the length is kept |
| PixelCodec.Decrypt | CS_02/pixelManipulation.py:75-87 | the flat buffer `decrypt_image` produces as written: unmask, then scatter through the inverse permutation; the length is kept |
| PixelCodec.DecryptFixed | CS_02/pixelManipulation.py:87 | not the program's behaviour: line 87 corrected to scatter through `perm` itself (`original[perm] = pixels`); the length is kept |
| PixelCodec.MaskInPlace | CS_02/pixelManipulation.py:64 | the in-place XOR of channels 0..2 leaves the array equal to the masked old contents |
| PixelCodec.EncryptPixels | CS_02/pixelManipulation.py:54-64 | the flat ciphertext equals `Encrypt`: gather by the permutation, then mask |
| PixelCodec.EncryptAt | CS_02/pixelManipulation.py:58-64 | ciphertext pixel `i` is source pixel `perm[i]` XOR key row `i`, with the same alpha |
| PixelCodec.DecryptPixels | CS_02/pixelManipulation.py:75-87 | the flat output of decryption as written equals `Decrypt`: unmask, invert the permutation, scatter through the inverse |
| PixelCodec.ScatterPixels | CS_02/pixelManipulation.py:86-87 | `original[idx] = pixels` into a fresh buffer equals the scatter specification |
| PixelCodec.DecryptGathers | CS_02/pixelManipulation.py:79-87 | as written, decryption gathers the unmasked pixels through `perm`, the direction encryption uses; alpha follows the pixels |
| PixelCodec.DecryptAfterEncrypt | CS_02/pixelManipulation.py:58-87 | as written, the round trip applies the permutation twice |
| PixelCodec.RoundTripUnderInvolution | CS_02/pixelManipulation.py:58-87 | as written, the round trip is the identity when the permutation is its own inverse |
| PixelCodec.RoundTripSmallImages | CS_02/pixelManipulation.py:58-87 | as written, images of at most two pixels survive the round trip |
| PixelCodec.RoundTripNeedsInvolution | CS_02/pixelManipulation.py:58-87 | as written, if `perm[perm[j]] != j` then the image with one marked pixel at `j` does not survive the round trip |
| PixelCodec.RoundTripIffInvolution | CS_02/pixelManipulation.py:58-87 | as written, all images of `n` pixels survive the round trip if and only if the permutation is an involution |
| PixelCodec.ZeroSourceThreeCycle | CS_02/pixelManipulation.py:23-27 | with draws that are all 0, the shuffle of three elements is `[1, 2, 0]` |
| PixelCodec.ZeroSourceMaskIsIdentity | CS_02/pixelManipulation.py:41-48 | with draws that are all 0, the keystream is zero and XOR changes nothing |
| PixelCodec.ThreeCycleCounterexample | CS_02/pixelManipulation.py:87 | a concrete failing round trip: `[A, B, C]` encrypts to `[B, C, A]`, which decrypts to `[C, A, B]` |
| PixelCodec.DecryptFixedRoundTrip | CS_02/pixelManipulation.py:84-87 | the corrected decryption undoes encryption for every image, seed and generator, and encryption undoes it |
| ImageCodec.FlattenReshape | CS_02/pixelManipulation.py:66 | reshaping to `height x width` and flattening again gives back the buffer |
| ImageCodec.ReshapeFlatten | CS_02/pixelManipulation.py:54-66 | flattening `reshape((-1, ch))` and reshaping back gives back the raster |
| ImageCodec.FlattenAt | CS_02/pixelManipulation.py:54 | row-major order: pixel `(r, c)` is flat pixel `r * width + c` |
| ImageCodec.Flatten | CS_02/pixelManipulation.py:54 | `arr.reshape((-1, ch))`: the rows laid end to end; every flat pixel comes from some row |
| ImageCodec.Reshape | CS_02/pixelManipulation.py:66 | `reshape((h, w, ch))`: a well-shaped `height x width` raster with row `r` the `r`-th block of `width` pixels |
| ImageCodec.EncryptRaster | CS_02/pixelManipulation.py:52-66 | the raster `encrypt_image` writes; it keeps the input's shape |
| ImageCodec.DecryptRaster | CS_02/pixelManipulation.py:73-89 | the raster `decrypt_image` writes as written; it keeps the input's shape |
| ImageCodec.DecryptRasterFixed | CS_02/pixelManipulation.py:87 | not the program's behaviour: the raster with line 87 corrected; it keeps the input's shape |
| ImageCodec.EncryptImage | CS_02/pixelManipulation.py:50-70 | `encrypt_image` without file I/O: the output is `EncryptRaster` and has the input's shape |
| ImageCodec.EncryptRasterPixels | CS_02/pixelManipulation.py:52-66 | the encrypted raster's row-major pixels are the flat codec's output |
| ImageCodec.DecryptImage | CS_02/pixelManipulation.py:72-92 | `decrypt_image` without file I/O, as written: the output is `DecryptRaster` and has the input's shape |
| ImageCodec.RasterRoundTripUnderInvolution | CS_02/pixelManipulation.py:50-92 | as written, a raster survives the round trip when it has at most two pixels or its permutation is an involution |
| ImageCodec.RasterRoundTripFixed | CS_02/pixelManipulation.py:50-92 | with the corrected decryption, every raster survives the round trip |
| Caesar.ShiftChar | CS_01/CaesarsCypher.py:9-18 | an upper-case letter stays upper case and a lower-case letter stays lower case |
| Caesar.Cipher | CS_01/CaesarsCypher.py:1-20 | the string `caesar_cipher(text, shift, mode)` returns, with `mode` defaulting to `'encrypt'`: one shifted character per input character; the shift is negated for `'decrypt'` (lines 5-6, the helper `EffectiveShift`) |
| Caesar.CaesarCipher | CS_01/CaesarsCypher.py:1-20 | the loop's output equals `Cipher(text, shift, mode)`; `mode` defaults to `'encrypt'` |
| Caesar.CipherPreservesStructure | CS_01/CaesarsCypher.py:8-18 | the output has the input's length and each character keeps its case; non-letters are copied unchanged |
| Caesar.DecryptIsNegatedEncrypt | CS_01/CaesarsCypher.py:5-6 | decrypting is encrypting with `-shift`; every mode other than `'decrypt'` encrypts |
| Caesar.ShiftCharRoundTrip | CS_01/CaesarsCypher.py:12-15 | rotating by `s` and then by `-s` gives back the character |
| Caesar.CipherRoundTrip | CS_01/CaesarsCypher.py:28-29 | decrypting with the shift that encrypted gives back the text, for every integer shift |
| Caesar.CongruentShifts | CS_01/CaesarsCypher.py:12-15 | shifts equal modulo 26 give the same output; shift 0 is the identity |
| Caesar.ShiftCharAsWritten | CS_01/CaesarsCypher.py:9-18 | with Python's letter tests passed in as functions: an upper-case letter maps into `A..Z`, every other letter into `a..z`; non-letters are unchanged |
| Caesar.CipherAsWritten | CS_01/CaesarsCypher.py:1-20 | `caesar_cipher` with Python's letter tests passed in as functions: one character per input character |
| Caesar.AsWrittenAgreesOnAscii | CS_01/CaesarsCypher.py:1-20 | for letter tests that agree with `IsAlpha`/`IsUpper` below code point 128, `caesar_cipher` on ASCII text equals `Cipher` |
| Caesar.NonAsciiLetterCounterexample | CS_01/CaesarsCypher.py:14-15 | for letter tests that call `'é'` a letter that is not upper case: `"é"` encrypts with shift 0 to `"g"`, with shift 3 to `"j"`, and `"j"` decrypts with shift 3 to `"g"`, not `"é"` |
| PasswordChecker.Search | CS_03/passwordChecker.py:6-9 | `re.search(class, password) is not None` holds exactly when some character of the password is in the class |
| PasswordChecker.Assess | CS_03/passwordChecker.py:5-9 | the five error flags: too short, and no character of each of the four classes |
| PasswordChecker.AssessCriteria | CS_03/passwordChecker.py:5-9 | each error flag is set exactly when its criterion fails |
| PasswordChecker.CountTrue | CS_03/passwordChecker.py:13 | `sum(errors)` is at most the number of flags, and 0 exactly when no flag is set |
| PasswordChecker.Score | CS_03/passwordChecker.py:12-13 | the score is at most 5, and exactly 5 when no criterion fails |
| PasswordChecker.Rating | CS_03/passwordChecker.py:29-34 | "Strong" exactly at score 5, "Moderate" exactly at 3 or 4, "Weak" otherwise |
| PasswordChecker.Select | CS_03/passwordChecker.py:16-26 | the number of messages selected is the number of flags set |
| PasswordChecker.SelectIn | CS_03/passwordChecker.py:16-26 | with distinct messages, a message is in the feedback exactly when its flag is set |
| PasswordChecker.Feedback | CS_03/passwordChecker.py:16-26 | the five conditional appends produce the messages of the set flags, in order |
| PasswordChecker.FeedbackAndRating | CS_03/passwordChecker.py:12-34 | one message per failed criterion, so the feedback's length is `5 - score`; the feedback is empty exactly when the score is 5; each rating band follows from the score |
| PasswordChecker.CheckPasswordStrength | CS_03/passwordChecker.py:3-36 | the returned rating and feedback: messages of the failed criteria in order, `5 - score` of them, and "Strong" exactly when there is no feedback |
| PasswordChecker.AppendNeverAddsErrors | CS_03/passwordChecker.py:5-13 | appending characters never makes a criterion fail, so the score never drops |
| PasswordChecker.CountMonotone | CS_03/passwordChecker.py:13 | fewer failed criteria, pointwise, never give a larger sum |

## Left out

- Python's Mersenne Twister is not modelled. A draw is an arbitrary function of the seed and the draw index. `_randbelow(n)` is modelled as that draw modulo `n`, and `getrandbits(8)` as that draw modulo 256. So the proofs hold for every generator, but no concrete permutation or keystream of CPython is computed. A draw is one call of `_randbelow` or `getrandbits(8)`, not one Mersenne Twister output: CPython's `_randbelow` rejection-samples and may use several outputs per call. So `Rng.Random.drawn`, and the "first `n - 1` draws" of `Permutations.PermutationDeterministic`, count calls.
- How CPython turns an integer seed into generator state (for example, that `Random(s)` and `Random(-s)` coincide) is not modelled; the seed is passed to the generator as it is.
- `load_image_as_array` and `save_array_as_image` (PIL file I/O and mode conversion): a raster is given to and returned from the model directly. Every pixel is RGBA, as after `convert("RGBA")`.
- `parse_args`, `main`, the missing-file check with exit code 2, and every `print`: command-line I/O.
- The `__main__` blocks of the Caesar cipher and the password checker read from `input()`. Their round-trip use of `caesar_cipher` is stated as `Caesar.CipherRoundTrip`.
- `CS_04/keylogger.py` is not part of this model.
- Permutations.InversePermutation: requires its argument to be a permutation of `0..n-1`. NumPy's behaviour on other index arrays (duplicates, out of range) is not modelled; the program only passes it the output of `make_permutation`.
- Key sensitivity and how hard the cipher is to break are probabilistic claims and are not stated.
- PasswordChecker.IsDigit, PasswordChecker.Assess, PasswordChecker.AssessCriteria, PasswordChecker.CheckPasswordStrength: match only ASCII `0..9`. Python's `\d` on `str` also matches other Unicode decimal digits, so for a password whose only digits are non-ASCII the model reports a digit error and the program does not.
- Caesar.ShiftChar, Caesar.Cipher, Caesar.CaesarCipher, Caesar.CipherRoundTrip: treat only ASCII letters as letters (the corrected behaviour). Python's Unicode tables for `isalpha`/`isupper` are not modelled. `Caesar.ShiftCharAsWritten` and `Caesar.CipherAsWritten` take them as function parameters instead.
- The rating strings are written with escapes for the check mark, warning sign (with variation selector) and cross mark emoji that the program prints.

## Findings

| source | as written | input that shows it | evidently intended | confidence | as-written member | corrected member |
|---|---|---|---|---|---|---|
| CS_02/pixelManipulation.py:85-87 | `original[inv] = pixels` scatters through the inverse, which gathers through `perm` again. `decrypt(encrypt(B))[j] == B[perm[perm[j]]]`, so the round trip holds only when `perm` is an involution. | any generator that shuffles three pixels into the 3-cycle `[1, 2, 0]` (for example, all draws 0): `[A, B, C]` encrypts to `[B, C, A]` and decrypts to `[C, A, B]` | `original[perm] = pixels` (or `pixels[inv]`), which restores every image | not executed | PixelCodec.Decrypt, PixelCodec.ThreeCycleCounterexample, PixelCodec.RoundTripIffInvolution | PixelCodec.DecryptFixed, PixelCodec.DecryptFixedRoundTrip, ImageCodec.RasterRoundTripFixed |
| CS_01/CaesarsCypher.py:9-15 | `isalpha()` accepts every Unicode letter. Every letter that is not upper case is rotated as if it were in `a..z`, so a non-ASCII letter is replaced by an ASCII one. | `caesar_cipher('é', 0)` gives `'g'`; encrypting `'é'` with shift 3 and decrypting gives `'g'`, not `'é'` | rotate only ASCII letters and copy every other character, so that decryption restores the text | not executed | Caesar.CipherAsWritten, Caesar.NonAsciiLetterCounterexample | Caesar.ShiftChar, Caesar.CipherRoundTrip |
