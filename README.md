# Verified model of the cipher core

This project models the cipher core of a small console encryption tool that
loads interchangeable symmetric stream ciphers by name. Each cipher exposes the
same descriptor: a name, an encryption function and a decryption function, each
taking the input bytes, a key and an optional nonce. The core has three parts:

- **Salsa20** (`scripts/cipher/salsa20.cpp`):
  - 32-bit rotation, as the code writes it with shifts and an OR; the little-endian word/byte conversions, defined as sums and quotients and proved equal to the code's shifts, ORs and casts (`BytesToWordShifts`, `WordBytesShifts`);
  - the quarter-round, the column round and the row round, updating a 16-word state array in place;
  - `blockGenerator`, which fills the initial state from the key, the nonce and a 64-bit block counter, copies it, runs ten double rounds, adds the initial state back and serialises 64 bytes;
  - `salsa20Cipher`, which checks the nonce, then the key, and XORs the input with the blocks for counters 0, 1, 2, and so on.
- **Autokey** (`scripts/cipher/autokey.cpp`):
  - encryption adds the previous plaintext byte modulo 256, and the first byte adds `key[0]`;
  - decryption subtracts the previously recovered byte.
- **Vernam** (`scripts/cipher/vernam.cpp`): it rejects a key shorter than the input, then XORs byte by byte.
- **The descriptors** (`createCipherModule` in each cipher file, the record shape in `scripts/cipher/interface.h`): modelled as the datatype `CipherInterface.CipherModule` of two function values.
- **Three file-name helpers** from `scripts/io.cpp`: `trimWhitespace`, `quotationRemover` and `getFileExtension`.

Modules:

- `Bits` holds the integer model of `uint8_t`, `uint32_t` and `uint64_t`. It includes bitwise XOR and OR defined bit by bit, shifts, wrap-around addition (`Add32`), and byte-wise XOR of a buffer and a pad (`XorBytes`).
- `CipherInterface` holds the descriptor and the error values. Each C++ `invalid_argument` throw becomes a `Failure` value that carries which check failed.
- `Salsa20Core` holds the block function. Each imperative piece is a method over an `array`, proved against a specification function on sequences: `QuarterAt`, `Columns`, `Rows`, `InitialState`, `Rounds`, `AddStates`, `Serialize` and `Block`.
- `Salsa20` holds the stream cipher: the method `Salsa20Cipher` with its block loop, and the reference definitions `Keystream`, `Stream` and `Apply`.
- `Autokey` and `Vernam` hold the other two ciphers, each as loop methods, reference functions and lemmas.
- `FileNames` holds the string helpers. Each `std::string&` that the C++ edits in place becomes a value passed in plus the result handed back.

The model follows the code where it departs from D. J. Bernstein's Salsa20 specification:

- **Column round.** It feeds the quarter-round with `(0,4,8,12)`, `(1,5,9,13)`, `(2,6,10,14)`, `(3,7,11,15)`. The paper's column round uses `(0,4,8,12)`, `(5,9,13,1)`, `(10,14,2,6)`, `(15,3,7,11)`. The row round is the paper's.
- **Constant for a 16-byte key.** Its third word is `0x79622d32`, so the constant spells "expand 12-byte k" (`ConstantsSpell`). The paper's word is `0x79622d36`, which spells "expand 16-byte k".
Two properties of the autokey code shape the model:

- **Autokey on an empty input or key.** The code reads index 0 of both without a check, so the model requires both to be non-empty (see "Left out").
- **Autokey change propagation.** Encryption feeds back plaintext bytes, so changing plaintext byte `i` changes only ciphertext bytes `i` and `i+1` (`EncryptChangeIsLocal`). Decryption carries a change to every later byte (`DecryptChangePropagates`).

## Model

| member | source | states |
|---|---|---|
| Salsa20Core.RotlAsSum | scripts/cipher/salsa20.cpp:12-14 | for 0 < c < 32 the rotation equals the low 32-c bits moved up by c plus the high c bits moved down: a circular rotation of the 32-bit word |
| Salsa20Core.RotlInverse | scripts/cipher/salsa20.cpp:12-14 | rotating left by c and then by 32-c gives the word back, for 0 < c < 32 |
| Salsa20Core.BytesToWordShifts | scripts/cipher/salsa20.cpp:17-22 | the little-endian value of four bytes is the OR of byte k shifted left by 8k, as the code assembles it |
| Salsa20Core.WordBytesShifts | scripts/cipher/salsa20.cpp:25-30 | the four output bytes are the word, and the word shifted right by 8, 16 and 24, each masked to its low byte |
| Salsa20Core.WordRoundTrip | scripts/cipher/salsa20.cpp:17-30 | converting a word to bytes and back gives the word |
| Salsa20Core.BytesRoundTrip | scripts/cipher/salsa20.cpp:17-30 | converting four bytes to a word and back gives the bytes |
| Salsa20Core.WordToBytes | scripts/cipher/salsa20.cpp:25-30 | the four bytes from the offset on become the little-endian bytes of the word; every other byte of the buffer is unchanged |
| Salsa20Core.InverseUndoesQuarter | scripts/cipher/salsa20.cpp:33-38 | the quarter-round (b, c, d, a updated in that order with additions mod 2^32) is undone by its inverse: it is injective |
| Salsa20Core.QuarterUndoesInverse | scripts/cipher/salsa20.cpp:33-38 | every four words are the quarter-round of some four words: it is a bijection |
| Salsa20Core.QuarterRound | scripts/cipher/salsa20.cpp:33-38 | the four named words of the state become the quarter-round of their old values and no other word changes |
| Salsa20Core.ColumnGroupsPartition | scripts/cipher/salsa20.cpp:41-46 | the four column groups are valid, pairwise disjoint, and every index 0..15 belongs to one of them |
| Salsa20Core.RowGroupsPartition | scripts/cipher/salsa20.cpp:49-54 | the four row groups are valid, pairwise disjoint, and every index 0..15 belongs to one of them |
| Salsa20Core.ApplyGroupsUntouched | scripts/cipher/salsa20.cpp:41-54 | a word that belongs to none of the groups comes through a round unchanged |
| Salsa20Core.ApplyGroupsIndependent | scripts/cipher/salsa20.cpp:41-54 | with pairwise disjoint groups, each group ends as the quarter-round of its own starting words, whatever the call order |
| Salsa20Core.ColumnsAreIndependentQuarters | scripts/cipher/salsa20.cpp:41-46 | after the column round, each column group holds the quarter-round of that group's words before it |
| Salsa20Core.RowsAreIndependentQuarters | scripts/cipher/salsa20.cpp:49-54 | after the row round, each row group holds the quarter-round of that group's words before it |
| Salsa20Core.ColumnRound | scripts/cipher/salsa20.cpp:41-46 | the state array becomes the four column quarter-rounds of its old contents, applied in call order |
| Salsa20Core.RowRound | scripts/cipher/salsa20.cpp:49-54 | the state array becomes the four row quarter-rounds of its old contents, applied in call order |
| Salsa20Core.ConstantsSpell | scripts/cipher/salsa20.cpp:64-65 | serialised, sigma is the ASCII text "expand 32-byte k" and tau is "expand 12-byte k" |
| Salsa20Core.KeyWordsBytes | scripts/cipher/salsa20.cpp:87-101 | four key words read from an offset serialise back to exactly the 16 key bytes there |
| Salsa20Core.CounterWords | scripts/cipher/salsa20.cpp:107-108 | the low 32 bits plus 2^32 times the high 32 bits of the block counter give the counter |
| Salsa20Core.StoreKeyWords | scripts/cipher/salsa20.cpp:87-101 | four state words from a position become the little-endian words of 16 key bytes from an offset; no other word changes |
| Salsa20Core.FillState | scripts/cipher/salsa20.cpp:75-108 | the state array becomes the initial state of the key, the nonce and the counter |
| Salsa20Core.InitialStateLayout | scripts/cipher/salsa20.cpp:75-108 | words 0, 5, 10 and 15 hold sigma for a 32-byte key and tau otherwise; words 1-4 serialise to key bytes 0-15; words 11-14 serialise to key bytes 16-31, or 0-15 again for a 16-byte key; words 6-7 serialise to the nonce; words 8-9 combine to the counter |
| Salsa20Core.InitialStateWords | scripts/cipher/salsa20.cpp:75-108 | the same layout word by word: each key and nonce word is the little-endian word of its four bytes, and words 8 and 9 are the counter's low and high halves |
| Salsa20Core.InitialStateInjective | scripts/cipher/salsa20.cpp:75-108 | equal initial states come only from the same key, the same first eight nonce bytes and the same counter |
| Salsa20Core.CopyState | scripts/cipher/salsa20.cpp:110-114 | the working array is a new array holding the same 16 words as the current state |
| Salsa20Core.RunRounds | scripts/cipher/salsa20.cpp:116-120 | the working array becomes ten double rounds (column round, then row round) of its old contents |
| Salsa20Core.FinalAdd | scripts/cipher/salsa20.cpp:122-129 | the output is the 64-byte little-endian serialisation of the word-wise sums mod 2^32 of the two states |
| Salsa20Core.SerializeAt | scripts/cipher/salsa20.cpp:124-127 | bytes 4i to 4i+3 of a serialised state are the little-endian bytes of word i |
| Salsa20Core.DeserializeSerialize | scripts/cipher/salsa20.cpp:124-127 | reading a serialised state back word by word gives that state |
| Salsa20Core.BlockDefinition | scripts/cipher/salsa20.cpp:110-129 | a block is the serialisation of ten double rounds of the initial state added word-wise to the initial state |
| Salsa20Core.BlockWords | scripts/cipher/salsa20.cpp:123-127 | word i of the 64-byte block is word i after ten double rounds plus word i of the initial state, mod 2^32 |
| Salsa20Core.BlockGenerator | scripts/cipher/salsa20.cpp:58-130 | a key of 16 or 32 bytes gives the 64-byte block for the nonce and counter; any other key length fails with an invalid-key error |
| Salsa20.BlockCountBounds | scripts/cipher/salsa20.cpp:150 | the loop generates the fewest 64-byte blocks that cover the input |
| Salsa20.KeystreamAt | scripts/cipher/salsa20.cpp:150-151 | byte i of the keystream is byte i mod 64 of the block for counter i/64 |
| Salsa20.KeystreamPrefix | scripts/cipher/salsa20.cpp:150-151 | the keystream of fewer blocks is a prefix of the keystream of more |
| Salsa20.BlockInKeystream | scripts/cipher/salsa20.cpp:150-155 | bytes 64n to 64n+63 of the keystream are the block for counter n |
| Salsa20.StreamAt | scripts/cipher/salsa20.cpp:150-159 | output byte i is input byte i XOR byte i mod 64 of the block for counter i/64, and that counter fits in 64 bits |
| Salsa20.Apply | scripts/cipher/salsa20.cpp:133-162 | fails with an invalid-nonce error exactly when the nonce is absent or not 8 bytes; fails with an invalid-key error exactly when the nonce is valid and the key is not 16 or 32 bytes; otherwise succeeds with output as long as the input |
| Salsa20.StreamStep | scripts/cipher/salsa20.cpp:153-159 | the output so far, extended by one block's piece of input XOR the block, is the next prefix of the stream |
| Salsa20.PushMasked | scripts/cipher/salsa20.cpp:157-159 | the output grows by the block's input bytes, each XOR the keystream byte at the same position |
| Salsa20.Salsa20Cipher | scripts/cipher/salsa20.cpp:133-162 | the result is the error or the XOR stream that Apply describes, with the nonce checked first and the key second |
| Salsa20.StreamSelfInverse | scripts/cipher/salsa20.cpp:150-159 | applying the stream twice with the same key and nonce gives the input back |
| Salsa20.StreamPrefix | scripts/cipher/salsa20.cpp:150-159 | the output for a prefix of the input is the same prefix of the output |
| Salsa20.StreamOfZeros | scripts/cipher/salsa20.cpp:158 | encrypting n zero bytes gives the first n bytes of the keystream |
| Salsa20.KeystreamReuse | scripts/cipher/salsa20.cpp:158 | two outputs under the same key and nonce XOR to the XOR of their inputs |
| Salsa20.ModuleRoundTrips | scripts/cipher/salsa20.cpp:165-171 | the descriptor's decryption undoes its encryption on every accepted input and preserves length |
| Salsa20.ModuleIsSymmetric | scripts/cipher/salsa20.cpp:165-171 | the descriptor is named "SALSA20" and uses the same function to encrypt and decrypt |
| Bits.XorBytesSelfInverse | scripts/cipher/vernam.cpp:11-13 | XORing a buffer with the same pad twice gives the buffer back |
| Bits.XorBytesUsesPadPrefix | scripts/cipher/vernam.cpp:11-13 | pads that agree on the first n bytes give the same result on an n-byte buffer |
| Vernam.XorText | scripts/cipher/vernam.cpp:9-15 | the result has the data's length and byte i is data byte i XOR key byte i |
| Vernam.Apply | scripts/cipher/vernam.cpp:18-32 | fails, with an invalid-key error, exactly when the key is shorter than the input; otherwise the output is as long as the input |
| Vernam.VernamCipher | scripts/cipher/vernam.cpp:18-32 | the result is the error or the XOR that Apply describes |
| Vernam.ApplyTwice | scripts/cipher/vernam.cpp:24-29 | with a key at least as long as the input, encryption succeeds and applying the cipher again gives the input back, whatever the nonces |
| Vernam.ApplyUsesKeyPrefix | scripts/cipher/vernam.cpp:11-13 | key bytes past the input's length and the nonce do not affect the result |
| Vernam.Example | scripts/cipher/vernam.cpp:12 | 0x48 0x49 under key 0x01 0x02 gives 0x49 0x4B, and back |
| Vernam.ModuleRoundTrips | scripts/cipher/vernam.cpp:35-42 | the descriptor round-trips every accepted input, preserves length and ignores the nonce |
| Vernam.ModuleIsSymmetric | scripts/cipher/vernam.cpp:35-42 | the descriptor is named "VERNAM" and uses the same function to encrypt and decrypt |
| Autokey.Encrypt | scripts/cipher/autokey.cpp:14 | the ciphertext has the plaintext's length |
| Autokey.Decrypt | scripts/cipher/autokey.cpp:32 | the recovered text has the ciphertext's length |
| Autokey.AutokeyCipher | scripts/cipher/autokey.cpp:9-24 | the output has the input's length, byte 0 is input byte 0 plus key byte 0 mod 256, and byte i is input byte i plus input byte i-1 mod 256 |
| Autokey.AutokeyDecipher | scripts/cipher/autokey.cpp:27-43 | the output has the input's length, byte 0 is input byte 0 minus key byte 0 mod 256, and byte i is input byte i minus output byte i-1 mod 256 |
| Autokey.DecryptAt | scripts/cipher/autokey.cpp:35-40 | each recovered byte is the ciphertext byte minus the previously recovered byte, or minus key byte 0 at position 0 |
| Autokey.RoundTrip | scripts/cipher/autokey.cpp:17-40 | decrypting the encryption of any plaintext under the same key gives the plaintext |
| Autokey.EncryptPrefix | scripts/cipher/autokey.cpp:20-22 | encrypting a prefix gives the prefix of the ciphertext |
| Autokey.DecryptPrefix | scripts/cipher/autokey.cpp:38-40 | decrypting a prefix of the ciphertext gives the prefix of the plaintext |
| Autokey.EncryptUsesFirstKeyByte | scripts/cipher/autokey.cpp:17 | keys with the same first byte give the same ciphertext |
| Autokey.DecryptUsesFirstKeyByte | scripts/cipher/autokey.cpp:35 | keys with the same first byte give the same plaintext |
| Autokey.EncryptChangeIsLocal | scripts/cipher/autokey.cpp:17-22 | changing plaintext byte i changes ciphertext bytes i and i+1 and no other |
| Autokey.DecryptChangePropagates | scripts/cipher/autokey.cpp:35-40 | changing ciphertext byte i changes every recovered byte from i on |
| Autokey.DecryptChangeKeepsEarlier | scripts/cipher/autokey.cpp:38-40 | changing ciphertext byte i leaves the recovered bytes before i unchanged |
| Autokey.Example | scripts/cipher/autokey.cpp:17-40 | 10 20 5 under key 100 encrypts to 110 30 25, and that decrypts back |
| Autokey.ModuleRoundTrips | scripts/cipher/autokey.cpp:46-53 | the descriptor is named "AUTOKEY", round-trips every accepted input, preserves length and ignores the nonce |
| FileNames.FindLastNotOf | scripts/io.cpp:13 | the position found holds a non-whitespace character with only whitespace after it; no position means the string is all whitespace |
| FileNames.FindFirstNotOf | scripts/io.cpp:16 | the position found holds a non-whitespace character with only whitespace before it; no position means the string is all whitespace |
| FileNames.FindLastOf | scripts/io.cpp:104 | the position found holds the character with no later occurrence; no position means it does not occur |
| FileNames.EraseTrailing | scripts/io.cpp:13-14 | when a last visible character is found, erasing after it drops exactly the trailing whitespace and leaves a visible character |
| FileNames.EraseLeading | scripts/io.cpp:16-17 | erasing before the first visible character drops exactly the leading whitespace |
| FileNames.NothingVisible | scripts/io.cpp:13-17 | when the first search finds nothing, neither does the second, and the string has no visible character |
| FileNames.TrimWhitespace | scripts/io.cpp:10-18 | the result is the string with both whitespace runs dropped, or the string unchanged when it holds no visible character |
| FileNames.TrimSpan | scripts/io.cpp:10-18 | with i the first and j the last visible position, trimming leaves exactly the characters from i to j |
| FileNames.TrimEdges | scripts/io.cpp:13-17 | a trimmed string with a visible character starts and ends with one; a string with none is unchanged; trimming never lengthens |
| FileNames.TrimIdempotent | scripts/io.cpp:10-18 | trimming twice is trimming once |
| FileNames.QuotationRemover | scripts/io.cpp:21-30 | the result is the trimmed name, less one outer pair of single quotes, or else of double quotes, when it is enclosed in them |
| FileNames.UnquoteQuoted | scripts/io.cpp:22-29 | a name in matching quotes with whitespace around comes back as exactly the text between the quotes, untrimmed |
| FileNames.UnquoteMismatched | scripts/io.cpp:25-29 | outer quotes of different kinds are both kept |
| FileNames.UnquoteUnquoted | scripts/io.cpp:22-29 | a name whose trimmed form does not start with a quote is only trimmed |
| FileNames.UnquoteWithinTrim | scripts/io.cpp:22-29 | the result is the trimmed name or the trimmed name without its first and last character |
| FileNames.FileExtension | scripts/io.cpp:103-107 | the result is empty exactly when no dot occurs after position 0; otherwise it is a shorter suffix of the name that starts with its only dot |
| FileNames.ExtensionOfJoin | scripts/io.cpp:104-105 | a non-empty base followed by a dot-led extension without further dots gives that extension, whatever dots the base holds |
| FileNames.ExtensionExamples | scripts/io.cpp:104-106 | ".bashrc" and "noext" give "", and "archive.tar.gz" gives ".gz" |

## Left out

- `scripts/main.cpp` is not part of this model. It holds the menu over console input and output, the loading of cipher modules from shared libraries with `dlopen`/`dlsym`/`dlclose`, and the process-wide module cache. None of these behave without the foreign loader.
- `readBytesFromFile`, `writeBytesToFile` and `readBytesFromInput` in `scripts/io.cpp` are left out: they do file and console I/O.
- `genRandomKey` is left out: it draws from the system's random device.
- The `extern "C"` entry points, the raw `CipherFunc` fields and the static descriptor storage in `scripts/cipher/interface.h` and `scripts/cipher/ciphers.h` are modelled as a datatype holding two function values. Which shared library supplies a descriptor is not modelled.
- Exceptions are modelled as `Failure` values that name the failed check. The message text is not modelled.
- Salsa20.Apply: requires an input shorter than 2^63 bytes (the largest size a C++ vector can hold). In the code, `blockCounter * 64` wraps to 0 in `uint64_t` when `blockCounter` reaches 2^58. So for an input longer than 2^64 - 64 bytes the loop condition never fails and the loop never ends. The model does not describe that case.
- Salsa20.Salsa20Cipher: carries the same input-length bound as `Apply`.
- Salsa20Core.BlockGenerator: requires a nonce of at least 8 bytes. The C++ reads nonce bytes 0-7 without a check, and its only caller has already required exactly 8.
- Salsa20Core.QuarterRound: requires four distinct indices. The C++ takes four references that could alias, but every call site passes four different state words.
- Autokey.AutokeyCipher: requires a non-empty input and key. The C++ reads index 0 of both unconditionally, which is undefined behaviour when either is empty, so there is no error path to model.
- Autokey.AutokeyDecipher: requires a non-empty input and key, for the same reason.
- Autokey.EncryptOp and Autokey.DecryptOp (the descriptor's functions) carry the same precondition, so the descriptor's round trip covers non-empty inputs and keys only.
- Conformance to published Salsa20 test vectors is not stated, because the code's column round and 16-byte-key constant differ from the standard.
- Cryptographic claims are not stated: keystream unpredictability, one-time-pad secrecy, and that a different counter gives a different block. Only `InitialStateInjective` is proved, about the state before the rounds.
- Strings are sequences of characters. The whitespace set is the six characters space, tab, newline, carriage return, form feed and vertical tab, compared exactly, with no locale.
- Vector allocation and reserved capacity are not modelled, only contents and lengths.
