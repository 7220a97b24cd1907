# Playfair cipher engine, modelled in Dafny

This project models the Playfair part of a desktop crypto tool. That covers
the functions of `playfair.py` and the `playfair_run_cipher` handler of the
application window.

**Matrix construction.** The key is filtered to ASCII letters (5x5) or
letters and digits (6x6) and upper-cased. For 5x5, J is folded into I. The
key is then deduplicated in first-occurrence order, completed with the rest
of the alphabet in canonical order, and cut into rows.

**Position lookup.** `find_position` returns the first row-major cell
holding a character, or nothing.

**Segmentation.** The text is filtered the same way and cut into pairs. A
filler goes after a symbol that is doubled or left alone at the end: the
first separator, or the second when the symbol is the first separator. The
position of every filler in the pair stream is recorded.

**Pair substitution.** The three rules apply: same row shifts right (or
left), same column shifts down (or up), otherwise the rectangle. Indices
wrap modulo the side. A pair with a symbol outside the matrix passes
through unchanged.

**The run.** The run checks the matrix, the separators and the input in
that order, and substitutes every pair of length two. It then writes the
cipher stream back over the input:

- characters outside the alphabet stay where they were;
- every admitted character takes the next cipher symbol in its own case,
  followed by the symbols at recorded filler positions;
- whatever is left of the stream is appended at the end.

## Modules

| file | module | contents |
|---|---|---|
| `seqs.dfy` | `Seqs` | `Dedup` / `AppendUnseen` (keep each character once) and their order and distinctness lemmas |
| `chars.dfy` | `Chars` | ASCII character classes, the two alphabets, and the filtering of keys and texts (`Normalize`, `Letters`, `PassThrough`) |
| `matrix.dfy` | `Matrix` | matrix generation (methods with loops), the specification `KeyOrder`, and `find_position` as `Locate` plus the loop `FindPosition` |
| `substitution.dfy` | `Substitution` | `encrypt_pair` / `decrypt_pair` as one `SubstitutePair` with a direction, and the inverse lemmas |
| `segmentation.dfy` | `Segmentation` | `process_plaintext_*` as methods with loops, proved equal to the reference function `Pairing`, and the segmentation invariant `ValidSegmentation` |
| `cipher_run.dfy` | `CipherRun` | `playfair_run_cipher`: the checks, the pair loop `SubstitutePairs`, the reconstruction loop `Reconstruct`, its specification `Rebuild`, and its properties |
| `round_trip.dfy` | `RoundTrip` | what happens when the encrypted result is decrypted again |

## Design notes

- **The reconstruction.** `Rebuild` is the reference function for the
  reconstruction loops. `Reconstruct` keeps the loops of the source (outer
  `for`, inner `while idx in inserted_indices`, final drain) and is proved
  equal to it.
- **Properties of the result.**
  - `RebuildPassThrough`: the characters outside the alphabet come out
    unchanged and in order.
  - `RebuildLetters`: the admitted characters, upper-cased, are exactly the
    cipher stream.
  - `RebuildLength`: the result has one character for each character
    outside the alphabet plus one for each unread stream symbol. In the
    run this comes to the input length plus the number of recorded filler
    positions (`CipherFacts`).
  - `RebuildCaseAll` and `LettersRebuild`: each stream symbol takes the
    case of the input letter it stands for, fillers are written as they
    are, and characters outside the alphabet do not change this
    (`CipherCase` for the run).
- **Round trip on 5x5.** Decrypting the encrypted result gives back the
  padded plaintext, in its original case (`DecryptEncryptRun5x5`). This
  needs two distinct fillers that are symbols of the matrix.
  - The segmentation of a cipher text never inserts fillers, because every
    encrypted pair has two different symbols (`SubstituteKeepsDistinct`,
    `PairingDistinctPairs`).
  - Decryption therefore re-reads exactly the encrypted pairs.
- **Round trip on 6x6.** Only equality up to case holds
  (`DecryptEncryptRun`). A lower-case letter that stands where the cipher
  stream has a digit is written as the digit. The decryption then cannot
  know it was lower-case, and writes the plain letter in upper case.
  `DigitLosesCase` states the step for every such letter, digit and plain letter.
- **A 'J' separator on the 5x5 matrix.** The separator fields accept any
  letter, including 'J'. On the 5x5 matrix, 'J' is not a cell, so a pair
  padded with it passes through substitution unchanged. It is read back as
  'I' by the next segmentation, which is why the round-trip theorems
  require the fillers to be symbols of the matrix.

## Model

| member | source | states |
|---|---|---|
| Chars.IsAsciiLetter | playfair.py:3-5 | true exactly for A-Z and a-z (on ASCII input) |
| Chars.IsAsciiAlnum | playfair.py:7-10 | true exactly for A-Z, a-z and 0-9 (on ASCII input) |
| Chars.AlphabetIsSymbols | playfair.py:18-29 | each alphabet literal has side*side characters, no repeats, and holds exactly the symbols of its size (no J for 5x5) |
| Chars.NormalizeSymbols | playfair.py:45-49 | the filtered text has one symbol per admitted character: that character upper-cased, with J folded into I on 5x5 |
| Seqs.AppendUnseen | playfair.py:16-20 | keeps the accumulated list as a prefix; the result holds exactly the old and the new characters, and stays duplicate-free |
| Seqs.DedupFirstOccurrence | playfair.py:15-17 | the deduplicated key is duplicate-free, has the key's characters, and lists them in order of first occurrence |
| Seqs.AppendUnseenDistinct | playfair.py:18-20 | appending a duplicate-free alphabet adds exactly its missing characters, in alphabet order |
| Matrix.KeyOrderFacts | playfair.py:13-21 | the fill order is the key's distinct symbols, then the missing alphabet symbols in canonical order; it is a permutation of the alphabet, and an empty key gives the alphabet itself |
| Matrix.AddUnseen | playfair.py:16-17 | the append-if-absent loop computes `AppendUnseen` |
| Matrix.Rows | playfair.py:21 | the rows comprehension gives k rows of n symbols whose concatenation is the input |
| Matrix.RowsFull | playfair.py:21 | cutting a permutation of the alphabet into rows gives a square matrix holding each symbol exactly once |
| Matrix.GenerateMatrix5x5 | playfair.py:12-22 | 5 rows of 5 holding each of the 25 letters (no J) once, in key order |
| Matrix.GenerateMatrix6x6 | playfair.py:24-33 | 6 rows of 6 holding each of A-Z and 0-9 once, in key order |
| Matrix.Locate | playfair.py:35-39 | the first row-major cell holding the character; NotFound exactly when no cell holds it |
| Matrix.LocateCell | playfair.py:35-39 | in a matrix without repeats every cell is found at its own position |
| Matrix.FindPosition | playfair.py:35-39 | the nested loop with early return computes `Locate` |
| Substitution.SubstitutePair | playfair.py:113-137 | two symbols out; a pair with a symbol outside the matrix comes back unchanged |
| Substitution.ShiftBack | playfair.py:120-135 | the decrypt shift `(x - 1) % size` undoes the encrypt shift `(x + 1) % size` and back |
| Substitution.SubstituteRoundTrip | playfair.py:113-137 | substituting in one direction and then the other gives back any pair, found or not |
| Substitution.DecryptEncrypt | playfair.py:113-137 | `decrypt_pair(encrypt_pair(a, b)) == a + b` on a well-formed matrix |
| Substitution.EncryptDecrypt | playfair.py:113-137 | `encrypt_pair(decrypt_pair(a, b)) == a + b` on a well-formed matrix |
| Substitution.RectangleSelfInverse | playfair.py:123-137 | in the rectangle case encrypt and decrypt agree and swap the columns |
| Substitution.SubstituteKeepsDistinct | playfair.py:113-137 | a pair of two different symbols stays a pair of two different symbols |
| Segmentation.Filler | playfair.py:61-62 | when the two separators differ, the filler chosen for a symbol is never that symbol, so a filled pair has two different symbols |
| Segmentation.PairingValid | playfair.py:51-77 | pairs have length two and, with distinct separators, two different symbols; deleting the recorded positions from the pair stream gives back the text; positions are odd, strictly increasing, below twice the pair count, and each marks the right filler after a symbol that repeats next or ends the text; the stream is as long as the text plus the fillers; the pairs hold only symbols of the text and the two separators |
| Segmentation.BalloonExample | playfair.py:56-75 | `BALLOON` with X/Y gives `BA LX LO ON` with a filler at 3 |
| Segmentation.PairingDistinctPairs | playfair.py:56-69 | a stream of pairs with different symbols is re-paired into the same pairs with no fillers |
| Segmentation.Segment | playfair.py:51-77 | the pairing loop computes `Pairing`, keeping `char_count == 2 * len(pairs)` |
| Segmentation.ProcessPlaintext5x5 | playfair.py:43-77 | the filter loop and the pairing loop compute `Pairing` of the filtered text |
| Segmentation.ProcessPlaintext6x6 | playfair.py:79-109 | the filter comprehension and the pairing loop compute `Pairing` of the filtered text |
| CipherRun.SubstituteAllPairs | main_ui.py:825-833 | when all pairs have length two, processed pair p is the substitution of pair p |
| CipherRun.SubstitutePairs | main_ui.py:825-831 | the pair loop computes `SubstituteAll` in the chosen direction |
| CipherRun.StreamKeeps | main_ui.py:825-833 | every stream character lies in any class of characters that holds the matrix cells, the symbols of the size and both fillers |
| CipherRun.Skip | main_ui.py:846-848 | the inner loop stops at the first position that is past the stream or not a recorded filler position; all skipped positions are recorded |
| CipherRun.RebuildCaseAll | main_ui.py:841-848 | over admitted characters, the result has one character per unread stream symbol; the symbol at position p is written in the case of input character `Rank(p)` (the number of non-filler symbols before it), and written as it is when p is a recorded filler position or the input is used up |
| CipherRun.LettersRebuild | main_ui.py:836-854 | deleting the outside characters from the result gives the reconstruction over the admitted characters alone, so outside characters do not shift which symbol a letter takes |
| CipherRun.Reconstruct | main_ui.py:836-854 | the reconstruction loops compute `Rebuild` |
| CipherRun.RebuildLength | main_ui.py:836-854 | the result has one character per outside character plus one per unread stream symbol |
| CipherRun.RebuildPassThrough | main_ui.py:849-850 | the characters outside the alphabet come out unchanged and in their order |
| CipherRun.RebuildLetters | main_ui.py:841-854 | the admitted characters of the result, upper-cased, are the stream from `idx` on: each symbol once, in order |
| CipherRun.CipherFacts | main_ui.py:836-856 | the shown result keeps the outside characters, carries the whole stream in order, and is longer than the input by the number of fillers |
| CipherRun.CipherCase | main_ui.py:836-856 | in the shown result, the admitted characters are the cipher stream position by position: each symbol in the case of the input letter it stands for, and each filler symbol (and any symbol past the input) as it is |
| CipherRun.RunCipher | main_ui.py:788-856 | each warning exactly under its condition in source order; otherwise the pairs, the processed pairs and the result, with the properties of `CipherFacts` |
| RoundTrip.CaseThroughLetter | main_ui.py:843-844 | a letter written in the case of the input is lower-case exactly when the input character was, and re-casing it is as good as casing once |
| RoundTrip.RebuildTwice | main_ui.py:836-854 | rebuilding the rebuilt text from a same-length plain stream gives the text rebuilt from that stream, when the cipher stream is upper-case letters |
| RoundTrip.DecryptEncryptPairs | main_ui.py:825-831 | decrypting the encrypted pairs gives back the pairs |
| RoundTrip.DecryptionPass | main_ui.py:817-833 | segmenting the encrypted text inserts no fillers and yields the encrypted pairs, whose decryption is the plain pair stream |
| RoundTrip.DecryptEncryptRun5x5 | main_ui.py:817-856 | on 5x5, decrypting the encrypted result gives the input as it was paired (each letter as its symbol, so J is read as I), with the fillers in place and the case of every letter kept |
| RoundTrip.DecryptEncryptRun | main_ui.py:817-856 | on either size, the same holds up to case |
| RoundTrip.DigitLosesCase | main_ui.py:843-844 | a lower-case input letter over a digit is written as the digit, and the digit cased again over an upper-case plain letter gives that letter in upper case, not in the input's lower case |
| RoundTrip.DigitLosesCaseExample | main_ui.py:836-854 | on the one-character text "a", a cipher digit "0" decrypted to "A" comes back "A", while rebuilding "a" from "A" gives "a" |

## Left out

- `rsa.py`: every function delegates to an external cryptography library; rsa.py is not part of this model.
- The rest of the window is out of scope: widgets, the file and save dialogs, the clipboard, the key validators, and the display of the pairs and the stream joined with spaces (main_ui.py:823, 834). The run returns the pairs, the processed pairs and the result instead of showing them, and each message box becomes a `Warning` value.
- The `try`/`except` around the run (main_ui.py:817, 858-859) is left out: for the inputs the model admits, nothing in the modelled code raises.
- Non-ASCII characters are excluded by an `IsAscii` precondition on matrix generation, segmentation and the run, and `IsAsciiLetter` / `IsAsciiAlnum` agree with the source on ASCII characters only. Python's `upper()` can map a non-ASCII character into A-Z (dotless i, long s) or into two characters (sharp s), which the source would then admit.
- CipherRun.RunCipher: requires each separator to be empty or one upper-case letter. This is what the separator fields allow: one `[A-Za-z]` character, upper-cased on every edit (main_ui.py:152-172, 678-685).
- CipherRun.RunCipher: requires the matrix to be empty or the full matrix of the chosen size, because the window regenerates the matrix whenever the size or the key changes (main_ui.py:693-721).
- RoundTrip.DecryptEncryptRun5x5: requires both fillers to be symbols of the matrix; a 'J' filler on 5x5 breaks the round trip, as the design notes explain.
- RoundTrip.DecryptEncryptRun: states the 6x6 round trip only up to case, because case is lost through digits (see `DigitLosesCase`).
- The default separators `'X'` and `'Y'` of `process_plaintext_*` are not modelled; the run always passes both.
- Strings are Dafny sequences; Python's list appends and `''.join` become sequence concatenation.
