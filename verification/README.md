# PuTTY's algorithms, verified

`ext/TortoisePlink` contains a large part of PuTTY. This project models its platform-independent
algorithms in Dafny and proves what they are for. Code that works in place is modelled in place: arrays
that are overwritten pass by pass, classes with the fields of PuTTY's structures, a heap-linked
byte queue, loops with their invariants. Each such method is tied to a function of its inputs or of the old state, and the
properties are proved about those functions.

| part | files | what it is |
|---|---|---|
| bidirectional text | `BidiChars`, `BidiFlip`, `BidiRules`, `Bidi`, `BidiText` | the rules of Unicode Standard Annex #9 (UAX #9) on one terminal line, and its reordering |
| key files | `Bytes`, `Bignum`, `SshWire`, `Ber`, `KeyBlobs`, `PemKey`, `NewOpenSsh`, `SshCom`, `SshComFile`, `Base64`, `Base64Form` | three formats of private keys, each with its writer and its reader |
| configuration | `Conf`, `ConfFormat`, `ConfStore` | an ordered, typed map and its binary form |
| line discipline | `Ldisc`, `LdiscScreen`, `LdiscEditor` | local line editing with echo |
| byte queue and its users | `Bufchain`, `StderrLog`, `Chap`, `ChapMeaning`, `ChapSocket`, `SessionLog`, `SessionLogFile` | the chained buffer, the proxy's error lines, the CHAP exchange, the session log |
| packet dump | `PacketDump`, `PacketDumpText` | the hex dump with blanked and omitted parts |
| configuration panels | `ControlPaths`, `ControlBox` | the order of control sets under panel paths |
| 64-bit arithmetic | `Int64` | unsigned numbers in two 32-bit words |

`dafny verify dfyconfig.toml` checks everything.

## Where the code falls short of its purpose

Each of these is a theorem with the exact condition under which the code does meet it, and most have a concrete
input that shows the difference.

- The flip loop of `do_bidi` looks for a level equal to the one of the pass, not at least that level. It reorders as
  rule L2 of UAX #9 asks exactly on balanced lines (`BidiFlip.FlipFollowsRuleIff`); in a right-to-left paragraph
  without explicit codes, exactly if the line does not begin with a number or is a single character
  (`Bidi.RightToLeftFollowsRuleIff`, `Bidi.LeadingDigitBreaksRule`); in a left-to-right one with some right-to-left
  letter, exactly if no right-to-left stretch begins with a number and goes on (`Bidi.LeftToRightFollowsRuleIff`), so
  that `12a` and a Hebrew letter are shown with the digits exchanged (`Bidi.LeadingDigitsExchanged`).
- A line without R or AL is returned as it is. Numbers count as right-to-left for the neutrals between them, so that
  the rule would turn such a neutral, with the numbers around it (`Bidi.NumbersAloneBreakRule`). It is what the rule
  asks for exactly if every such neutral is by itself and looks the same from both sides (`Bidi.DisplayFollowsRuleIff`).
- The end of an embedding or override takes the scan over explicit codes back only if the code was the first character
  of the line (`BidiText.EndOfCodeIff`).
- A number that no right-to-left character precedes in a right-to-left paragraph is shown with its digits turned round
  (`BidiText.NumberInOrderIff`).
- The long-tag loop of `ber_read_id_len` tests bit 0x80 of the header's first byte in every round
  (`Ber.HeaderReadsBackIff`, `Ber.LongIdLost`).
- `sshcom_read` writes RSA's d as a string, so that a leading zero byte is lost (`SshCom.PrivateRereadIff`).
- Backspace in `ldisc_send` has no lower bound (`Ldisc.LastStartExistsIff`, `Ldisc.StrayByteLeavesLine`), and
  switching editing off rubs out a line that was never echoed (`LdiscEditor.FlushMatchesScreenIff`).
- After a success attribute that is not the last of its message, the SOCKS 5 driver no longer calls the CHAP parser, so
  that the result depends on where the stream is cut (`Chap.SameForAllCutsIff`, `Chap.CutMessageExample`). The
  parser alone does not depend on it (`Chap.CutsDoNotMatter`).

## Model

| member | source | states |
|---|---|---|
| `BidiFlip.FlipFollowsRuleIff` | ext/TortoisePlink/minibidi.c:300-335 | The flip passes from the highest level down to 1 give the order of UAX #9 rule L2 (reverse every maximal run of level k or more, for each k) exactly if the line is balanced; the code looks for a level equal to the pass level, so the two are not the same on every line |
| `BidiFlip.BalancedFollowsRule` | ext/TortoisePlink/minibidi.c:1599-1611 | On a balanced line the program's order is rule L2's, whatever the characters are |
| `BidiFlip.UnbalancedBreaksRule` | ext/TortoisePlink/minibidi.c:326-335 | On every other line the order differs as soon as the characters can be told apart |
| `BidiFlip.FollowsIffAgree` | ext/TortoisePlink/minibidi.c:300-335 | For one maximal run and a pass level: the recursive condition on the levels holds exactly if the program's remaining passes agree with the rule's, directly or mirrored |
| `BidiFlip.StepwiseIsBalanced` | ext/TortoisePlink/minibidi.c:1599-1611 | Levels that start at 0 or 1 and rise by at most one from a character to the next are balanced |
| `BidiFlip.BalancedUpToTwo` | ext/TortoisePlink/minibidi.c:1599-1611 | With levels 0 to 2 a line is balanced exactly if every run of level 1 or more begins with level 1 or is a single character |
| `BidiFlip.NoTwoLeadsIff` | ext/TortoisePlink/minibidi.c:326-335 | That condition seen from the places where it fails: no run begins with level 2 and goes on |
| `BidiFlip.RuleKeepsLineIff` | ext/TortoisePlink/minibidi.c:1190-1201 | With levels 0 to 2 rule L2 leaves a line as it is exactly if every 1 is a run by itself: what the early return for lines without R or AL is measured against |
| `BidiFlip.FlipIsLocalPermutation` | ext/TortoisePlink/minibidi.c:300-321 | With no assumption on the levels: the result is a permutation, level 0 stays in place, and no character leaves its maximal run of level 1 or more |
| `BidiFlip.PassIsLocal` | ext/TortoisePlink/minibidi.c:300-321 | One pass, of the program or of the rule, undoes itself and moves a character only within its maximal run |
| `BidiFlip.OrderIgnoresIdleLevels` | ext/TortoisePlink/minibidi.c:1599-1611 | Passes above the highest level of the line change nothing |
| `BidiFlip.FindIndexOfRun` | ext/TortoisePlink/minibidi.c:326-335 | The first position at or after the start whose level equals the pass level, or the length |
| `BidiFlip.FlipThisRun` | ext/TortoisePlink/minibidi.c:300-321 | In place, one pass gives the array of the pass function and keeps the characters as a multiset |
| `BidiFlip.Reorder` | ext/TortoisePlink/minibidi.c:1592-1611 | In place, the passes from the maximum down to 1 give the line's flip order |
| `BidiRules.ApplyW1` | ext/TortoisePlink/minibidi.c:1336-1350 | In place, a non-spacing mark takes the type of what is before it; a first one takes the paragraph level as its type, as the code does |
| `BidiRules.ApplyW2` | ext/TortoisePlink/minibidi.c:1352-1370 | In place, the array of rule W2 applied to all characters at once: a European number becomes Arabic exactly if the last strong type before it is AL |
| `BidiRules.ApplyW3` | ext/TortoisePlink/minibidi.c:1372-1381 | In place, every AL becomes R and nothing else changes |
| `BidiRules.ApplyW4` | ext/TortoisePlink/minibidi.c:1383-1398 | In place, rule W4 applied at once to the interior separators; what that comes to in levels is `BidiText.SeparatorTakesLevel` |
| `BidiRules.ApplyW5` | ext/TortoisePlink/minibidi.c:1400-1423 | In place, with the lookahead and the jump over a run: rule W5 applied at once to the array before the pass |
| `BidiRules.W5OnRun` | ext/TortoisePlink/minibidi.c:1400-1423 | A maximal run of European terminators becomes EN exactly if an EN touches either end of it |
| `BidiRules.ApplyW6` | ext/TortoisePlink/minibidi.c:1425-1436 | In place, the separators and terminators that are left become neutral |
| `BidiRules.ApplyW7` | ext/TortoisePlink/minibidi.c:1438-1456 | In place, a European number becomes L exactly if the last strong type before it is L |
| `BidiRules.LastStrongMeans` | ext/TortoisePlink/minibidi.c:1357-1370 | The backward search of W2 and W7 finds a type exactly if some character at or before has it and nothing strong follows that one |
| `BidiRules.ApplyN1` | ext/TortoisePlink/minibidi.c:1458-1506 | In place, with its separate code for the first and last character: rule N1 applied at once |
| `BidiRules.N1OnRun` | ext/TortoisePlink/minibidi.c:1458-1500 | An interior maximal run of neutrals takes a direction exactly if both sides have it, numbers counted as R; otherwise it stays neutral |
| `BidiRules.ApplyN2` | ext/TortoisePlink/minibidi.c:1508-1518 | In place, the remaining neutrals take the direction of their embedding level |
| `BidiRules.ApplyImplicit` | ext/TortoisePlink/minibidi.c:1520-1543 | In place, rules I1 and I2 on the levels |
| `BidiRules.ApplyL1` | ext/TortoisePlink/minibidi.c:1545-1580 | In place, segment and paragraph separators and the spaces before them or at the end go back to the paragraph level |
| `BidiRules.SpacesShareReset` | ext/TortoisePlink/minibidi.c:1545-1580 | A whole run of spaces is reset exactly if a separator or the end of the line follows it |
| `Bidi.GetType` | ext/TortoisePlink/minibidi.c:358-1019 | Binary search in any sorted disjoint table gives the type of the row that holds the code point, else ON |
| `Bidi.ApplyExplicit` | ext/TortoisePlink/minibidi.c:1249-1318 | The loop over embedding and override codes leaves the types and levels of its step-by-step specification |
| `Bidi.GetPreviousLevel` | ext/TortoisePlink/minibidi.c:1064-1080 | The level in front of the run of equal levels that ends just before the position, or -1 if there is none |
| `Bidi.DoBidi` | ext/TortoisePlink/minibidi.c:1181-1620 | The whole call: the line becomes the flip order of its mirrored characters under the levels of rules W1 to L1, or stays as it is when it has no R or AL; on lines without explicit codes the result is rule L2's order exactly under the condition of the next rows; the pairs of original character and index are kept as a multiset |
| `Bidi.LevelsFollowTypes` | ext/TortoisePlink/minibidi.c:1520-1543 | Without explicit codes: odd level for R, even for L, EN and AN, and levels between the paragraph level and 2 |
| `Bidi.DisplayFollowsRuleIff` | ext/TortoisePlink/minibidi.c:1181-1620 | End to end, on lines without explicit codes: what the call leaves is rule L2's order of the line's levels exactly if, when the line has some R or AL, every run of level 1 or more begins with level 1 or is a single character, and when it has none, every character of level 1 is a run by itself and its own mirror image |
| `Bidi.RightToLeftFollowsRuleIff` | ext/TortoisePlink/minibidi.c:1181-1620 | In a right-to-left paragraph this holds exactly if the line does not begin with a number (or terminators joined to one), or is one character long |
| `Bidi.LeadingLetterFollowsRule` | ext/TortoisePlink/minibidi.c:1181-1620 | Whenever the first character is R or AL the display is rule L2's order |
| `Bidi.LeadingDigitBreaksRule` | ext/TortoisePlink/minibidi.c:326-335 | A digit followed by a Hebrew letter is a line on which it is not |
| `Bidi.LeftToRightFollowsRuleIff` | ext/TortoisePlink/minibidi.c:1181-1620 | In a left-to-right paragraph, on the types that the weak rules and N1 make of the line: exactly if no stretch of right-to-left characters and numbers begins with a number and is longer than one, or, without any R or AL, exactly if every neutral taken for R is by itself and its own mirror image |
| `Bidi.LettersAndDigitsFollowRuleIff` | ext/TortoisePlink/minibidi.c:1181-1620 | On letters and digits, in the types of the characters themselves: exactly if there is no R or AL, or no stretch outside the left-to-right words begins with a digit and goes on |
| `Bidi.LeadingDigitsExchanged` | ext/TortoisePlink/minibidi.c:326-335 | Two digits, a Latin and a Hebrew letter: the digits are shown exchanged, by the rule they stay |
| `Bidi.NumbersAloneBreakRule` | ext/TortoisePlink/minibidi.c:1190-1201 | Two Arabic numbers with a space between them: the rule exchanges them, the early return leaves the line |
| `Bidi.LeadingLevel` | ext/TortoisePlink/minibidi.c:1336-1580 | The level that all the rules together give to the first character of a right-to-left paragraph |
| `BidiText.SeparatorTakesLevel` | ext/TortoisePlink/minibidi.c:1383-1398 | On lines without explicit codes, in the types that W1 to W3 leave: a single comma or European separator between two European numbers, or comma between two Arabic ones, has the level of both neighbours; any other separator is neutral after the weak rules |
| `BidiText.TerminatorsTakeLevel` | ext/TortoisePlink/minibidi.c:1400-1436 | A run of European terminators that touches a European number has that number's level on either side; any other is neutral |
| `BidiText.MarkTakesLevel` | ext/TortoisePlink/minibidi.c:1336-1350 | A nonspacing mark has the level of the character before it, unless that one is a segment separator; at the start of the line it has the paragraph level |
| `BidiText.EveryDigitLevel` | ext/TortoisePlink/minibidi.c:1336-1456 | A number is at level 2, except a European one whose last letter before it is left-to-right in a left-to-right paragraph |
| `BidiText.NumberTypeOf` | ext/TortoisePlink/minibidi.c:1352-1381 | After W1 to W3 a European number is Arabic exactly if the last letter before it on the line is; AL is R |
| `BidiText.NeutralsTake` | ext/TortoisePlink/minibidi.c:1458-1506 | A run of neutrals inside the line takes a direction exactly if both neighbours give it, numbers as R; at an end of the line only a single neutral takes that of its neighbour |
| `BidiText.EveryLevel` | ext/TortoisePlink/minibidi.c:1508-1580 | The final level of every character: the paragraph level for separators, the spaces before them or the end, and what is still neutral; otherwise that of its type |
| `BidiText.ResetsIff` | ext/TortoisePlink/minibidi.c:1545-1580 | What goes back to the paragraph level: separators, and spaces with nothing but spaces up to one or to the end |
| `BidiText.ParagraphLevelMeans` | ext/TortoisePlink/minibidi.c:1216-1227 | The paragraph is right-to-left exactly if the first of its letters is |
| `BidiText.NumberTextIsOneStretch` | ext/TortoisePlink/minibidi.c:1383-1456 | In a right-to-left paragraph digits of one kind with single separators between them are one stretch of level 2 |
| `BidiText.NumberInOrderIff` | ext/TortoisePlink/minibidi.c:1592-1611 | Such a number is shown in its order exactly if something of level 1 stands before it, or it is one digit |
| `BidiText.CommaAfterLetter` | ext/TortoisePlink/minibidi.c:1383-1398 | A Hebrew letter and 1,5: levels 1 2 2 2, and shown as 1,5 with the letter behind it |
| `BidiText.CodeMeans` | ext/TortoisePlink/minibidi.c:1249-1275 | An embedding or override code raises the level by one or two to the parity of its direction and sets or clears the override |
| `BidiText.OverrideMarks` | ext/TortoisePlink/minibidi.c:1249-1318 | An override is marked in the top two bits of the level of a code, and the final masking gives the level again |
| `BidiText.CharacterMeans` | ext/TortoisePlink/minibidi.c:1295-1311 | Any other character has the level reached and the type of the override, if there is one |
| `BidiText.EndOfCodeIff` | ext/TortoisePlink/minibidi.c:1277-1293 | PDF after a first code takes the scan back exactly if that code is the first character of the line; otherwise the level stays and everything after counts as left-to-right |
| `SshWire.ReadStringBack` | ext/TortoisePlink/misc.c:1121-1136 | A length-prefixed string (section 5 of RFC 4251) is read back with what follows it |
| `SshWire.ReadStringOnly` | ext/TortoisePlink/misc.c:1121-1136 | Whatever the reader accepts is exactly such a string and its rest: the length never reaches beyond the data |
| `Bignum.Put32Value` | ext/TortoisePlink/import.c:285-292 | A 32-bit field holds its value, highest byte first |
| `SshWire.Cursor.GetString` | ext/TortoisePlink/misc.c:1121-1136 | The cursor moves past the string, or stays where it was on failure |
| `SshWire.Cursor.GetUint32` | ext/TortoisePlink/misc.c:1138-1146 | The cursor moves past the number, or stays where it was on failure |
| `SshWire.PutString` | ext/TortoisePlink/import.c:285-292 | Writes exactly the length-prefixed string behind what is there |
| `SshWire.PutMp` | ext/TortoisePlink/import.c:299-309 | Writes the string with a zero byte in front exactly when the top bit is set |
| `SshWire.Ssh2ReadMpint` | ext/TortoisePlink/import.c:319-338 | Position and size of the number, or failure with the cursor at the end |
| `KeyBlobs.RsaBlobs` | ext/TortoisePlink/import.c:966-982 | The blobs of an RSA key: name, e and n; d, p, q and the inverse of q |
| `KeyBlobs.DsaBlobs` | ext/TortoisePlink/import.c:1027-1045 | The blobs of a DSA key: name, p, q, g and y; x |
| `Ber.BerWriteIdLen` | ext/TortoisePlink/import.c:222-275 | With and without a destination: the size that the sizing pass returns is that of the header the writing pass writes |
| `Ber.BerReadIdLen` | ext/TortoisePlink/import.c:171-213 | The loop reader computes the specified parse, including its test of the first byte in the long form |
| `Ber.HeaderReadsBackIff` | ext/TortoisePlink/import.c:171-275 | A header is read back exactly if its tag number is at most 30 or its class has bit 0x80: the reader's long-tag loop tests the first byte of the header instead of the current one |
| `Ber.ReadLongId` | ext/TortoisePlink/import.c:171-275 | Long tags of the classes with bit 0x80 are read back |
| `Ber.LongIdLost` | ext/TortoisePlink/import.c:179-186 | Long tags of the other classes come back as 0 |
| `PemKey.PemWrite` | ext/TortoisePlink/import.c:953-1190 | From the two blobs of a key the writer builds the SEQUENCE of INTEGERs, the two remainders computed from d and the primes, padded and encrypted if a passphrase is given |
| `PemKey.RsaFileHolds` | ext/TortoisePlink/import.c:1006-1076 | Read out of the file, an RSA key is exactly nine INTEGERs: 0, n, e, d, p, q, d mod (p-1), d mod (q-1) and the inverse of q, in this order, the remainders not negative and as short as can be |
| `PemKey.DsaFileHolds` | ext/TortoisePlink/import.c:1027-1076 | A DSA key is exactly six: 0, p, q, g, y and x |
| `PemKey.FileTags` | ext/TortoisePlink/import.c:1072-1076 | The file is tag 0x30, length and INTEGERs; an INTEGER is tag 2, length and bytes |
| `PemKey.LengthIsDer` | ext/TortoisePlink/import.c:236-275 | A length is one byte below 128, otherwise a count and as few big-endian bytes as there can be |
| `PemKey.WriteBlob` | ext/TortoisePlink/import.c:1046-1076 | The size computed with a null destination is exactly what is then written |
| `PemKey.SizeOfIntegers` | ext/TortoisePlink/import.c:1046-1058 | The sizing pass gives the length of all the INTEGERs |
| `PemKey.PadToBlock` | ext/TortoisePlink/import.c:1155-1190 | Padding to a multiple of 8 in the way of RFC 1423, a whole block when there is nothing to fill |
| `PemKey.PemRead` | ext/TortoisePlink/import.c:657-676 | The reader parses the SEQUENCE header, the version and the integers, with its error cases |
| `PemKey.RebuildBlobs` | ext/TortoisePlink/import.c:806-889 | The two blobs are put together integer by integer, each assertion on the buffer size holding |
| `PemKey.EmittedFits` | ext/TortoisePlink/import.c:788-889 | Whatever integers are read from a key file, and however many of them, what is written from them is at most 256 bytes longer than the file: the buffer that is allocated is never exceeded |
| `Bignum.BignumBytes` | ext/TortoisePlink/import.c:990-1004 | The loop fills (bits + 8) / 8 bytes with the number's bytes, highest first |
| `Bignum.SignedBytesMean` | ext/TortoisePlink/import.c:990-1004 | They have the number's value, show that it is not negative, and are as few as can be |
| `PemKey.RsaAcceptsIff` | ext/TortoisePlink/import.c:657-889 | An RSA key is accepted exactly if the file holds a SEQUENCE that begins with the version 0 and eight more INTEGERs; its blobs are made of the first five and the last |
| `PemKey.DsaAcceptsIff` | ext/TortoisePlink/import.c:657-889 | A DSA key exactly if five follow the version |
| `PemKey.VersionMismatchIff` | ext/TortoisePlink/import.c:657-835 | The version error comes exactly if there is such a SEQUENCE and its first INTEGER is not 0 |
| `PemKey.RebuiltRsa` | ext/TortoisePlink/import.c:840-889 | The exchange of n and e, and the integers passed over, rebuild the RSA blobs |
| `PemKey.PemRoundTrip` | ext/TortoisePlink/import.c:806-1076 | For every RSA or DSA key: what the writer writes is read back as byte-identical public and private blobs, whatever follows it |
| `PemKey.PemRoundTripEncrypted` | ext/TortoisePlink/import.c:657-1190 | The same through any cipher that decrypts what it encrypts of whole blocks, padding included |
| `NewOpenSsh.NewWrite` | ext/TortoisePlink/import.c:1737-1870 | The writer produces the specified file, in place in one buffer, with the section length filled in afterwards |
| `NewOpenSsh.EstimateSuffices` | ext/TortoisePlink/import.c:1763-1838 | The estimated buffer size is always larger than the file, so the writer's assertion holds |
| `NewOpenSsh.NewLoad` | ext/TortoisePlink/import.c:1394-1497 | The loader's cursor accepts and rejects as its specification does; which files those are is `NewOpenSsh.LoadAcceptsIff` |
| `NewOpenSsh.NewRead` | ext/TortoisePlink/import.c:1614-1714 | The section reader accepts and rejects as its specification does; which sections those are is `NewOpenSsh.ReadAcceptsIff` |
| `NewOpenSsh.LoadAcceptsIff` | ext/TortoisePlink/import.c:1394-1497 | A file is loaded exactly if it is the magic text, a known cipher, a known key derivation with its options, the count 1, a public blob and a private section, and anything after |
| `NewOpenSsh.ReadAcceptsIff` | ext/TortoisePlink/import.c:1614-1714 | A key is read exactly if the section, when enciphered, is whole blocks, and its text is two equal check words, a type name, as many strings as the type has, a comment, and the padding 1, 2, 3, ... |
| `NewOpenSsh.CheckFailedIff` | ext/TortoisePlink/import.c:1621-1626 | The check fails, before anything else is looked at, exactly if the first four bytes are not there twice |
| `NewOpenSsh.BadMagicIff` | ext/TortoisePlink/import.c:1401-1404 | The magic text decides first: without it nothing else of the file is looked at |
| `NewOpenSsh.PaddingAccepted` | ext/TortoisePlink/import.c:1707-1714 | The 1, 2, 3, ... padding of any length passes the reader's check |
| `NewOpenSsh.ReadSectionBack` | ext/TortoisePlink/import.c:1614-1714 | The private section is read back: name, pieces, comment |
| `NewOpenSsh.LoadBack` | ext/TortoisePlink/import.c:1394-1497 | The outer file is loaded back: cipher, derivation options, public blob and section |
| `NewOpenSsh.NewRoundTrip` | ext/TortoisePlink/import.c:1394-1870 | For every key and comment, plain or with a passphrase: load and read give back public blob, pieces and comment |
| `SshCom.SshcomPutMpint` | ext/TortoisePlink/import.c:2230-2246 | Writes the bit count and the bytes without leading zeros |
| `SshCom.FindTopBit` | ext/TortoisePlink/import.c:2230-2239 | The loop over bits and bytes ends at the first significant byte with the bit count of the rest |
| `SshCom.SshcomReadMpint` | ext/TortoisePlink/import.c:2207-2222 | Reads (bits + 7) / 8 bytes, or fails at the end of the data |
| `SshCom.BitCountMatchesBytes` | ext/TortoisePlink/import.c:2207-2246 | The stored bit count, rounded up, is the number of bytes stored |
| `SshCom.StripKeepsValue` | ext/TortoisePlink/import.c:2230-2246 | Dropping leading zeros keeps the number's value |
| `SshCom.ReadSshcomMpintBack` | ext/TortoisePlink/import.c:2207-2246 | A number written is read back without its leading zeros |
| `SshCom.StrippedMpintIff` | ext/TortoisePlink/import.c:299-309 | Written as an mpint again the bytes are the original ones exactly if the original was canonical, or a single zero byte |
| `SshCom.SshcomWrite` | ext/TortoisePlink/import.c:2513-2619 | The writer produces the specified file: reordered fields, lengths patched in, padding from the given bytes |
| `SshCom.SshcomRead` | ext/TortoisePlink/import.c:2248-2470 | The reader accepts and rejects as specified and rebuilds the blobs in PuTTY's field order |
| `SshCom.ContentsBack` | ext/TortoisePlink/import.c:2383-2456 | The payload of a key is read back as its blobs |
| `SshCom.SshcomRoundTrip` | ext/TortoisePlink/import.c:2248-2619 | For every key with canonical numbers, plain or encrypted: the public blob comes back byte-identical, the private one with RSA's d as the reader writes it |
| `SshCom.PrivateRereadIff` | ext/TortoisePlink/import.c:2416-2426 | The private RSA blob comes back byte-identical exactly if d does not start with a zero byte: the reader writes d as a string, without the sign byte; the value is the same |
| `SshComFile.FileLayout` | ext/TortoisePlink/import.c:2513-2619 | The bytes of a file: 3f 6f f9 eb, its length, the type, the cipher and the enciphered part |
| `SshComFile.RsaSection` | ext/TortoisePlink/import.c:2519-2545 | In it an RSA key is e, d, n, the inverse of q, q and p, in this order |
| `SshComFile.DsaSection` | ext/TortoisePlink/import.c:2546-2572 | A DSA key is a zero word, p, g, q, y and x |
| `SshComFile.StoredNumber` | ext/TortoisePlink/import.c:2230-2246 | A stored number is its count of bits and its value in as few bytes as hold them |
| `SshComFile.SshcomAcceptsIff` | ext/TortoisePlink/import.c:2248-2470 | A key is read exactly from files of that form: the magic number, a type known by its first sixteen characters, a known cipher, data that are whole blocks when enciphered, a string with as many counted integers as the type has; the blobs are made of them in PuTTY's order |
| `SshComFile.BadMagicIff` | ext/TortoisePlink/import.c:2270-2276 | The reader fails for the magic number exactly if the file does not begin with 3f 6f f9 eb, whatever follows |
| `Base64.AtomBack` | ext/TortoisePlink/misc.c:555-625 | Four characters decode to the one to three bytes they were made from |
| `Base64.Base64Encode` | ext/TortoisePlink/sshpubk.c:1283-1304 | The encoder's output without line breaks is the encoding of the data, no line is longer than asked for, and every line but the last is that long |
| `Base64.LoadLine` | ext/TortoisePlink/import.c:478-507 | One line of the loader: characters are collected across lines, and a bad atom stops it |
| `Base64.LoadBody` | ext/TortoisePlink/import.c:1350-1382 | The loader's loop over the lines decodes the characters of all of them |
| `Base64.AnyLinesDecode` | ext/TortoisePlink/import.c:478-507 | However the encoded text is broken into lines, even inside an atom, the loader recovers the data |
| `Base64.EncodedFileDecodes` | ext/TortoisePlink/import.c:478-507 | Text from the encoder, broken into lines of any length, loads back as the data |
| `Base64Form.AlphabetIs` | ext/TortoisePlink/misc.c:555-600 | Encoder and decoder use one alphabet, the one of RFC 4648 |
| `Base64Form.StandsIff` | ext/TortoisePlink/misc.c:555-600 | A character stands for the value that the decoder gives it, and no other one stands for that value |
| `Base64Form.AtomMeans` | ext/TortoisePlink/misc.c:555-577 | Three bytes are the 24 bits of four characters, highest first; two are three characters and one is two, filled up with zero bits and padding characters |
| `Base64Form.AtomAcceptedIff` | ext/TortoisePlink/misc.c:579-625 | A group is decoded exactly if it is four characters of the alphabet of which the last, or the last two, may be padding; to as many bytes as that leaves |
| `Base64Form.DecodesIff` | ext/TortoisePlink/import.c:478-507 | A text is decoded exactly if each of its complete groups is |
| `Base64Form.LinePrefix` | ext/TortoisePlink/import.c:478-507 | Of a line only the characters up to the first that is not base64 count |
| `Conf.StrTrichotomy` | ext/TortoisePlink/conf.c:78-99 | String subkeys are totally ordered, as strcmp orders them |
| `Conf.KeyTransitive` | ext/TortoisePlink/conf.c:78-99 | The order of keys is transitive |
| `Conf.InsertedUpdates` | ext/TortoisePlink/conf.c:223-232 | Insertion keeps the order and the types, and is the update of the map |
| `Conf.InsertedAllOverrides` | ext/TortoisePlink/conf.c:223-232 | Inserting entry after entry overrides the old map with the new one |
| `Conf.RoundTrip` | ext/TortoisePlink/conf.c:509-647 | Deserialising a serialised store inserts its entries one by one and returns exactly the serialised size, whatever follows |
| `Conf.RoundTripFromEmpty` | ext/TortoisePlink/conf.c:509-647 | Into an empty store: the same store |
| `Conf.RoundTripOverrides` | ext/TortoisePlink/conf.c:554-647 | Into a non-empty store: the old map overridden by the new one |
| `Conf.TruncatedTakesWholeEntries` | ext/TortoisePlink/conf.c:554-647 | From any proper prefix of a serialised store exactly the entries wholly contained are inserted |
| `Conf.DeserialisedIsValid` | ext/TortoisePlink/conf.c:554-647 | Arbitrary bytes leave the store ordered and well typed |
| `Conf.Deserialised` | ext/TortoisePlink/conf.c:554-647 | What is consumed never exceeds the data, on any bytes |
| `Conf.FontBack` | ext/TortoisePlink/windows/winmisc.c:561-588 | A serialised font is read back with its exact size |
| `Conf.FontCut` | ext/TortoisePlink/windows/winmisc.c:573-588 | A font cut short is rejected |
| `Conf.EntryCut` | ext/TortoisePlink/conf.c:570-643 | An entry cut anywhere after its key is rejected |
| `ConfFormat.TakesLeadingEntries` | ext/TortoisePlink/conf.c:554-647 | From any bytes the reader inserts exactly the entries they begin with, one after another, and stops where no entry follows |
| `ConfFormat.EntryFormat` | ext/TortoisePlink/conf.c:509-552 | The bytes of an entry: primary key, then subkey and value as their types say |
| `ConfFormat.FontFormat` | ext/TortoisePlink/windows/winmisc.c:561-588 | The bytes of a font |
| `ConfFormat.StoreFormat` | ext/TortoisePlink/conf.c:509-552 | The entries in order, ended by four bytes of ones |
| `ConfFormat.StrLessMeans` | ext/TortoisePlink/conf.c:78-99 | A string is less if it runs out first or has the lesser byte where the two differ first |
| `ConfFormat.KeyLessMeans` | ext/TortoisePlink/conf.c:78-99 | Keys are ordered by primary key, then by number or string |
| `ConfStore.Store.Insert` | ext/TortoisePlink/conf.c:223-232 | Add, and if the key was taken delete and add again: the ordered list with the entry in its place |
| `ConfStore.Store.DelStrStr` | ext/TortoisePlink/conf.c:434-448 | The map without that string subkey; the very same entries if it was not there |
| `ConfStore.Store.Get` | ext/TortoisePlink/conf.c:259-310 | The value of the key in the map, or none |
| `ConfStore.Store.CopyInto` | ext/TortoisePlink/conf.c:234-250 | The other store ends up with the same entries |
| `ConfStore.Store.SerialisedSize` | ext/TortoisePlink/conf.c:472-507 | Exactly the number of bytes that serialising writes |
| `ConfStore.Store.Serialise` | ext/TortoisePlink/conf.c:509-552 | Writes the serialised form into the buffer |
| `ConfStore.Store.Deserialise` | ext/TortoisePlink/conf.c:554-647 | The loop with its early exits leaves the specified entries and returns the specified size |
| `ConfStore.LookedUp` | ext/TortoisePlink/conf.c:259-310 | The search finds a key exactly if the map has it, with its value |
| `ConfStore.Store.GetStrStrs` | ext/TortoisePlink/conf.c:319-339 | The entry after a subkey, or the first |
| `ConfStore.Store.GetNthStrKey` | ext/TortoisePlink/conf.c:341-359 | The n-th subkey of a primary key in order, or none |
| `ConfStore.NextVisitsAll` | ext/TortoisePlink/conf.c:319-339 | Going on from each subkey found gives the next entry of the primary key, and none after the last |
| `ConfStore.FirstAndNth` | ext/TortoisePlink/conf.c:319-359 | Starting with no subkey gives the first entry; the n-th subkey is that of the n-th entry |
| `ConfStore.NextIsLeastAbove` | ext/TortoisePlink/conf.c:319-339 | From a subkey that is not in the store the listing goes on with the least one above it |
| `ConfStore.Store.List` | ext/TortoisePlink/settings.c:238-240 | The listing loop of the store's users visits every entry of a primary key once, in order |
| `Ldisc.StepKeepsEcho` | ext/TortoisePlink/ldisc.c:174-318 | One key, from any line: the columns written match the new line's width, and the cursor never goes back beyond where the line began; after ^D the next line begins where the cursor is |
| `Ldisc.EchoStaysInStep` | ext/TortoisePlink/ldisc.c:174-318 | Over every run of keys with echo on, columns echoed less columns rubbed out are the width of the line, and never below zero |
| `Ldisc.ByteTakesItsWidth` | ext/TortoisePlink/ldisc.c:30-61 | What is written for a byte takes exactly the columns counted for it, on a terminal of either character set |
| `Ldisc.ErasesOneCharacter` | ext/TortoisePlink/ldisc.c:197-206 | Backspace takes off exactly the last whole UTF-8 character |
| `Ldisc.LastStartExistsIff` | ext/TortoisePlink/ldisc.c:197-206 | The backspace loop, which has no lower bound, stays in the line exactly if some byte of the line starts a character |
| `Ldisc.StrayByteLeavesLine` | ext/TortoisePlink/ldisc.c:197-206 | A stray continuation byte followed by a backspace leaves it |
| `Ldisc.WellFormedIsSafe` | ext/TortoisePlink/ldisc.c:174-318 | If every continuation byte follows another byte of a multibyte character, no run of keys ever leaves the line |
| `Ldisc.WordStartMeans` | ext/TortoisePlink/ldisc.c:207-218 | ^W cuts back to the last byte that begins a word, or the line |
| `Ldisc.RunSplits` | ext/TortoisePlink/ldisc.c:137-318 | Two runs after each other are one run of all the keys: same line, same output |
| `Ldisc.EchoOnlyAddsScreen` | ext/TortoisePlink/ldisc.c:174-318 | With or without echo the back end hears the same, and without echo nothing is written |
| `Ldisc.EditsWholeCharacters` | ext/TortoisePlink/ldisc.c:174-318 | With echo or without: typing whole characters, quoted keys, the two backspace keys, ^W, ^U, ^R, ^D, the signal keys, Return and the raw protocol's CR LF, the byte editor never leaves its line, holds the bytes of what an editor of whole characters holds, and sends exactly what that one sends, written out key by key; with Telnet keys off ^U types itself after erasing |
| `Ldisc.TypedLinesAreSent` | ext/TortoisePlink/ldisc.c:291-318 | Lines typed one after another are all sent, once, in order, each followed by its protocol's line end, and nothing is left over |
| `LdiscScreen.ScreenShowsLine` | ext/TortoisePlink/ldisc.c:30-61 | With echo, after every such sequence the terminal's row holds what was there before the line and then the line itself, character by character: as it is, as ^X, or as hex in angle brackets |
| `LdiscEditor.Editor.Key` | ext/TortoisePlink/ldisc.c:174-316 | One turn of the editing loop on the growing buffer, with all its cases and fall-throughs |
| `LdiscEditor.Editor.EraseCharacter` | ext/TortoisePlink/ldisc.c:197-206 | The do-while loop of backspace, byte by byte |
| `LdiscEditor.Editor.EraseWord` | ext/TortoisePlink/ldisc.c:207-218 | The loop of ^W, byte by byte |
| `LdiscEditor.Editor.Insert` | ext/TortoisePlink/ldisc.c:306-315 | A byte is put at the end, in a larger buffer if need be |
| `LdiscEditor.Editor.SendEditing` | ext/TortoisePlink/ldisc.c:174-318 | One call with editing on is the run of its key codes |
| `LdiscEditor.Editor.SendThrough` | ext/TortoisePlink/ldisc.c:319-361 | One call with editing off: the left-over line sent and rubbed out, then the bytes or the Telnet command they stand for |
| `LdiscEditor.PassThroughHeard` | ext/TortoisePlink/ldisc.c:319-361 | With editing off nothing is lost: the back end hears the left-over line and what the call stands for |
| `LdiscEditor.TelnetKeys` | ext/TortoisePlink/ldisc.c:330-358 | Which single special keys are Telnet commands, and when |
| `LdiscEditor.KeyCodes` | ext/TortoisePlink/ldisc.c:155-178 | The key code of each byte of a call |
| `LdiscEditor.CutsDoNotMatter` | ext/TortoisePlink/ldisc.c:137-318 | Into however many calls the input is cut, line and output are those of one call with all of it |
| `LdiscEditor.FlushMatchesScreenIff` | ext/TortoisePlink/ldisc.c:319-326 | Rubbing out the left-over line matches the screen exactly if it was echoed or takes no columns: that code does not ask for echo |
| `Bufchain.Chain.Add` | ext/TortoisePlink/misc.c:670-702 | The bytes are appended, across the tail granule and a new one; no granule is left empty and the size is that of the contents |
| `Bufchain.Chain.Consume` | ext/TortoisePlink/misc.c:704-724 | The first bytes are dropped, granule by granule |
| `Bufchain.Chain.Prefix` | ext/TortoisePlink/misc.c:726-730 | A non-empty prefix of the contents whenever there are any |
| `Bufchain.Chain.Fetch` | ext/TortoisePlink/misc.c:732-754 | A prefix of the contents is copied out and the queue is unchanged |
| `Bufchain.Chain.Clear` | ext/TortoisePlink/misc.c:653-663 | The queue is empty |
| `Bufchain.Chain.Size` | ext/TortoisePlink/misc.c:665-668 | The number of bytes in the queue |
| `Bufchain.FetchedMore` | ext/TortoisePlink/misc.c:732-754 | What is fetched so far and a part of the next granule are a prefix of the contents |
| `Bytes.JoinHead` | ext/TortoisePlink/misc.c:704-754 | The contents are the first granule's bytes and then those of the rest |
| `StderrLog.LogProxyStderr` | ext/TortoisePlink/be_misc.c:62-111 | The messages are those of the lines that the held and the new data complete; the rest is held |
| `StderrLog.LinesAreTheText` | ext/TortoisePlink/be_misc.c:62-111 | The lines and the rest are the text cut at exactly its newlines |
| `StderrLog.LinesJoin` | ext/TortoisePlink/be_misc.c:62-111 | Lines of two parts: those of the first, then those of its rest followed by the second |
| `StderrLog.ChunksDoNotMatter` | ext/TortoisePlink/be_misc.c:62-111 | However the data are cut into calls: the newline-terminated lines of the concatenation, in order, and the unterminated remainder is held |
| `StderrLog.CleanLineIsWhole` | ext/TortoisePlink/be_misc.c:88-91 | A line without zero bytes is logged whole |
| `StderrLog.LineEndsAtZero` | ext/TortoisePlink/be_misc.c:88-91 | Of any other line only what is before the first zero byte |
| `ChapSocket.ProxySocket.HandleChap` | ext/TortoisePlink/cproxy.c:45-159 | The loop of the parser, from any state it may be resumed in, computes the specified run; it fetches at most 255 data bytes and never reads a byte that was not read before |
| `ChapSocket.ProxySocket.Receive` | ext/TortoisePlink/proxy.c:1093-1099 | The driver calls the parser only in the CHAP phase |
| `Chap.StepIsSound` | ext/TortoisePlink/cproxy.c:45-159 | Every step keeps the parser's counters consistent and consumes bytes, or ends the wait for an attribute without data |
| `ChapMeaning.RunTells` | ext/TortoisePlink/cproxy.c:45-159 | On every stream: the input is read as message heads and attributes; challenges are answered by 1, 1, 4, 16 and the hash of their data; a status other than zero, an algorithm other than 0x85, another version or a count of zero ends the run with its error; it is done at the end of the message that holds a status of zero, and otherwise waits for more |
| `ChapMeaning.FaultEndsRun` | ext/TortoisePlink/cproxy.c:45-146 | A faulty token anywhere ends the run with its error, whatever follows; what came before it is answered |
| `ChapMeaning.SuccessEndsRun` | ext/TortoisePlink/cproxy.c:45-159 | Without fault, the run is done when the message that authenticates is complete, and leaves what follows |
| `ChapMeaning.ConnectsOnlyOnSuccess` | ext/TortoisePlink/proxy.c:1093-1099 | However the stream is cut, the driver connects only if a part of it holds a status of zero (or one without data) and nothing faulty |
| `Chap.RunSplits` | ext/TortoisePlink/cproxy.c:45-159 | Two calls on two parts, or one call on both: same replies, state, outcome and unread bytes |
| `Chap.CutsDoNotMatter` | ext/TortoisePlink/cproxy.c:45-159 | However the stream is cut into arrivals, repeated calls come to what one call on the whole stream comes to |
| `Chap.DriverIgnoresCuts` | ext/TortoisePlink/proxy.c:1093-1099 | As long as no cut falls into a message that has authenticated already, the driver does the same for every cutting |
| `Chap.SameForAllCutsIff` | ext/TortoisePlink/proxy.c:1093-1099 | The driver is independent of all cuttings exactly if there is no such place in the stream: once authenticated it does not call the parser for the rest of the message |
| `Chap.NoCutMessageIff` | ext/TortoisePlink/cproxy.c:110-146 | There is none exactly if, in the parser's run, the success attribute is the last of its message or the last bytes of the stream |
| `Chap.CutMessageExample` | ext/TortoisePlink/proxy.c:1093-1099 | Success first and a challenge after it: in one arrival the challenge is answered, cut in between the driver connects and leaves the challenge unread |
| `SessionLogFile.LogContext.LogWrite` | ext/TortoisePlink/logging.c:34-56 | Opening on the first write, queueing while the answer is awaited, writing, or ignoring after an error |
| `SessionLogFile.LogContext.Fopen` | ext/TortoisePlink/logging.c:163-203 | The file is opened at once, or the user is asked first |
| `SessionLogFile.LogContext.FopenCallback` | ext/TortoisePlink/logging.c:85-156 | The answer: header, then the queue |
| `SessionLogFile.LogContext.Drain` | ext/TortoisePlink/logging.c:143-155 | The queue is written piece by piece, with the effect of writing it at once, even if the disk fills up on the way |
| `SessionLog.RunHolds` | ext/TortoisePlink/logging.c:34-203 | After every run: while opening everything submitted is queued; otherwise the queue is empty, and an opened file holds the header and all submitted bytes in order, each once, up to the room on the disk |
| `SessionLog.ModeFollowsEvents` | ext/TortoisePlink/logging.c:34-203 | The mode and the phase of a run follow from whether anything was written and from the answer taken |
| `SessionLog.TimingDoesNotMatter` | ext/TortoisePlink/logging.c:34-203 | When the answer comes makes no difference: runs with the same output and the same answer end with the same file, queue, phase and mode |
| `SessionLog.AnswerEmptiesQueue` | ext/TortoisePlink/logging.c:85-156 | Whichever mode is chosen, the queue is empty afterwards and the log is open or given up |
| `SessionLog.PutsJoin` | ext/TortoisePlink/logging.c:143-155 | Two writes are one write of both, also when the disk fills up in between |
| `PacketDump.Dump` | ext/TortoisePlink/logging.c:312-373 | The loop over the packet, with its row buffer and cursor over the areas, gives the texts of the specified lines |
| `PacketDump.TextsOfLines` | ext/TortoisePlink/logging.c:312-373 | The dump's texts are those of the lines, one by one, so that what is proved of rows and gaps holds of the dump |
| `PacketDump.Classify` | ext/TortoisePlink/logging.c:315-326 | The cursor over sorted areas finds how each byte is to be shown |
| `PacketDump.ShownOnce` | ext/TortoisePlink/logging.c:312-373 | Every byte that is not left out is in exactly one row, a byte left out in none |
| `PacketDump.RowsAreAligned` | ext/TortoisePlink/logging.c:335-367 | A row shows only bytes of one block of sixteen, under that block's address |
| `PacketDump.RowShowsByte` | ext/TortoisePlink/logging.c:347-354 | Each byte of a row stands in column p % 16, in hex and at the right |
| `PacketDumpText.RowLooks` | ext/TortoisePlink/logging.c:335-367 | A row begins with its address, two spaces and eight hexadecimal digits with the block's offset as their value; each of its bytes has its value in two digits, and itself or a dot at the right; XX and X when blanked; then it ends |
| `PacketDumpText.RowIsBlankElsewhere` | ext/TortoisePlink/logging.c:335-367 | Everything else in a row is spaces |
| `PacketDumpText.GapLooks` | ext/TortoisePlink/logging.c:328-333 | A gap tells the number of bytes left out in canonical decimal digits, with the right form of the word |
| `PacketDumpText.KindMeans` | ext/TortoisePlink/logging.c:315-326 | A byte is shown as the area that covers it says, and as it is if none does |
| `PacketDump.ReportedCountsSum` | ext/TortoisePlink/logging.c:328-372 | The counts reported come to the number of bytes left out |
| `PacketDump.HiddenBytesDoNotMatter` | ext/TortoisePlink/logging.c:312-373 | Packets that differ only in bytes blanked or left out have the same dump |
| `ControlPaths.PathCompare` | ext/TortoisePlink/dialog.c:28-40 | The number of common leading elements of different paths, or that they are identical |
| `ControlPaths.MatchingIsCommon` | ext/TortoisePlink/dialog.c:28-40 | Counting element ends while the characters agree counts the common elements |
| `ControlPaths.ElementsInjective` | ext/TortoisePlink/dialog.c:16-40 | Paths are equal exactly if their elements are |
| `ControlPaths.InsertAtPlace` | ext/TortoisePlink/dialog.c:89-108 | Put in where the match count first drops, or at an equal path, the list keeps every subtree in one stretch |
| `ControlPaths.DropIsFinal` | ext/TortoisePlink/dialog.c:89-108 | After the first drop no entry matches as well as before it |
| `ControlPaths.PlaceIsFirst` | ext/TortoisePlink/dialog.c:89-108 | If the path is in the list, the place found is where it is first |
| `ControlPaths.SubtreeIsStretch` | ext/TortoisePlink/dialog.c:89-108 | For every path prefix the entries under it form one interval |
| `ControlPaths.EqualsAreStretch` | ext/TortoisePlink/dialog.c:89-108 | Equal paths are adjacent |
| `ControlBox.Box.FindSet` | ext/TortoisePlink/dialog.c:89-108 | The loop finds the place |
| `ControlBox.Box.SetTitle` | ext/TortoisePlink/dialog.c:129-152 | A title is put in at the place of its path; the subtrees stay together |
| `ControlBox.Box.GetSet` | ext/TortoisePlink/dialog.c:154-183 | An existing set of that path and name is found, and nothing changes; otherwise one is added right after the sets of its path, or at the path's place if it has none, and the subtrees stay together |
| `ControlBox.Box.FindPath` | ext/TortoisePlink/dialog.c:115-127 | The first set of a path, or the next one |
| `ControlBox.Box.VisitPanel` | ext/TortoisePlink/windows/windlg.c:369-372 | Iterating from -1 visits each set of the path exactly once, in order |
| `Int64.Div10IsExact` | ext/TortoisePlink/int64.c:12-31 | Exact quotient and remainder, with no 32-bit overflow on the way |
| `Int64.AddIsSum` | ext/TortoisePlink/int64.c:57-62 | The sum modulo 2^64: the carry is found by comparing |
| `Int64.SubtractIsDifference` | ext/TortoisePlink/int64.c:81-86 | The difference modulo 2^64: the borrow shows against the complement |
| `Int64.AddSubtractInverse` | ext/TortoisePlink/int64.c:57-86 | Addition and subtraction undo each other |
| `Int64.CompareIsOrder` | ext/TortoisePlink/int64.c:72-79 | Comparison is the order of the values |
| `Int64.OrDisjoint` | ext/TortoisePlink/int64.c:93-117 | The parts that the shifts put together with a bitwise or have no bit in common, so that the or is the sum |
| `Int64.ShiftRightIsQuotient` | ext/TortoisePlink/int64.c:93-104 | A shift right, its low word made with a bitwise or, is the quotient by the power of two |
| `Int64.ShiftLeftIsProduct` | ext/TortoisePlink/int64.c:106-117 | A shift left, its high word made with a bitwise or, is the product modulo 2^64 |
| `Int64.Decimal` | ext/TortoisePlink/int64.c:33-47 | The digits of the value, without leading zeros, in a buffer of twenty |
| `Int64.WrittenIsShort` | ext/TortoisePlink/int64.c:33-47 | Twenty digits are always enough |
| `Int64.FromDecimal` | ext/TortoisePlink/int64.c:119-130 | The value of the leading digits modulo 2^64 |
| `Int64.DecimalRoundTrip` | ext/TortoisePlink/int64.c:33-130 | A number written and read is the same; so is a canonical text whose value fits |

## Left out

- ext/ResizableLib, config.c and all dialog wiring: Windows glue without an algorithm of its own.
- Files, sockets, time stamps and user questions: they are input bytes, output sequences, the `World` of the session log and the answers it gets; a write fails in the model only when the disk is full, after which nothing more can be written.
- Ciphers, hashes and key derivation: parameters; bignums are numbers; the round trips assume that decryption undoes encryption and that lengths are kept, the CHAP model takes the keyed hash as a function. The key object made from the blobs, and its error for a key that does not decode, are not part of the model.
- The ECDSA branches of the key file code: they need curve tables that are not in the repository. The same holds for the passphrase-dependent error codes, which the model reports as format errors.
- The PEM and ssh.com header lines, file comments and key type lines around the base64 text: only the body and its line breaking are modelled.
- Ber.BerWriteIdLen: lengths below 2^24 and tag numbers below 2^28 only, because beyond that the C shifts of `int` values have no defined meaning.
- SshWire.PutMp: for an empty number the C code looks at one byte behind it; the model writes an empty string.
- SshCom.SshcomRead: the model checks that the magic number and a length word are inside the data before reading them, where the C code relies on the buffer being long enough.
- BidiRules.ApplyW5: the lookahead is guarded at the end of the line, where the C code reads one element behind the array.
- Bidi.DoBidi: code points are classified once at the start, where the C code looks them up again in each pass; the tables behind `getType` and `doMirror` are parameters, and Arabic shaping is not modelled.
- Bidi.DisplayFollowsRuleIff: lines without embedding or override codes, which the code's own comment says are incomplete; the model covers what the code does with them, and `BidiText.EndOfCodeIff` shows where it falls short.
- PemKey.PemWrite: the primes of an RSA key must be greater than 1, which the bignum division asserts.
- Rules P1, X10, L3 and L4 of UAX #9, which the code leaves out too.
- The balanced tree behind the configuration: a sorted sequence with the tree's search, insert and delete; the configuration's table of keys is a parameter. Setters other than insertion and deletion only make an entry and insert it.
- Ldisc.EchoStaysInStep: one character set and one echo setting for the whole run, one column for every UTF-8 character as the code has it, and white space of the C locale.
- LdiscEditor.Editor.SendThrough: nothing is claimed about columns after raw bytes have been echoed.
- The notices to the front end at each call of `ldisc_send` (key pressed, paste interrupted): no effect on line or output.
- Bufchain.Chain.Add: granule headers count 16 bytes, as with 32-bit pointers; freeing memory is not modelled.
- SessionLog.RunHolds: no reconfiguration while the log is open or being opened, and ASCII or raw mode; the event log lines of the packet modes are written ahead of the queue by design.
- PacketDump.Dump: areas must be sorted and must not overlap, as the code's own scan assumes; the header line of a packet is not modelled.
- ControlBox.Box.FindSet: only the mode in which all its callers use it; the controls inside a set are not modelled.
- Int64.ShiftLeft: shifts by 0 are excluded, as C leaves a shift by the word's width undefined; the conversion to `double` is left out.
- callback.c, cmdline.c, ldiscucs.c, cmdgen.c, the stub modules and all scripts: small or bound to input and output.
