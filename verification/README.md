# Verified models of ethersex algorithms

ethersex is firmware for AVR microcontrollers. Most of it moves registers about, but it holds a
number of self-contained algorithms with strong properties. This project restates them in Dafny
and proves those properties for all inputs and all runs. Code that changes state step by step is
modelled as methods and classes that change state step by step, and each such method is proved
against a specification function about which the properties are then proved.

| files | subject |
|---|---|
| `OneWireBus`, `OneWireOrder`, `OneWireRun`, `OneWire` | the 1-Wire ROM search: one pass walks a trie of device codes over a wired-AND line; a run of passes lists every device once, in order |
| `Crc`, `BitMachines` | the Dallas CRC-8 in two forms, and the errors it detects |
| `KeySchedule`, `Rfc2144`, `Cast5` | CAST5: the compressed, byte-swapped code against RFC 2144, and its inverse |
| `CastRounds`, `CastWords` | the three round functions, and the laws that tell them apart |
| `Rfc1321`, `Md5Padding`, `Md5` | MD5: index rotation and masked indices against the steps of RFC 1321; padding and streaming |
| `Hd44780`, `Terminal`, `Tty` | windows on one character image, deferred scrolling, and the LCD that follows by differences |
| `DnsNames`, `CompareWalk`, `MdnsSd` | domain names: writing, skipping, comparing, compression pointers, and the messages on which comparing never ends |
| `DnsAnswers`, `ResolverSpec`, `ResolverRuns`, `Resolver` | the polled resolver: expiry of queries, callbacks lost and called, questions and answers, over all runs |
| `ArpTable` | the address table against a map, its eviction and its ageing |
| `VfsImage`, `Numbers` | files appended to a firmware image, and the search for them in flash |
| `ShiftChains` | chains of 74HC595 and 74HC165 registers |
| `Bits`, `Words`, `WordNumbers`, `Options` | bytes, 32-bit words, their bits and their numbers; optional values |

`dafny verify dfyconfig.toml` checks the whole project.

## How the pieces are modelled

* The 1-Wire bus is a set of 64-bit codes with wired-AND reads and a shrinking selected subset.
  A schedule says which devices are attached in every time slot, so that devices may come and go
  during a search. The loop of `ListDevices` is that of the `onewire list` command.
* S-boxes and the MD5 table are arbitrary functions. The tables s5 to s8 of the CAST5 code hold
  the words of RFC 2144 byte-swapped (`core/crypto/cast5-sbox.h`, from line 437 on); the model
  does the same. The schedule is written once, for any representation of bytes and words, and a
  change of representation is proved to carry over to all round keys. Rotation by 0 is the
  identity.
* MD5 runs over any word type and operations; `Md5.WordOps` are those of a 32-bit machine, and
  `Md5.Performs` says bit by bit and in numbers what those do.
* A tty cell is an octet. Plain `char` is signed on AVR, so that a cell never equals a character
  from 128 on and is written again; the model keeps that. Display memory is 128 cells.
* Octets of messages are numbers; texts are given without their terminating zero. `resolv.c` has
  its own copy of the walk of `parse_name`; it is the same walk.
* A resolver callback is identified by a number, and the log of calls is ghost state.
* Flash is an array of whole pages, erased to 0xFF behind the image.

## Where the code does less than it seems to

Each of these is a lemma or a method contract, with the exact condition where there is one.

* `Md5Padding.PaddingIsRfc`: `md5_lastBlock` pads as RFC 1321 does exactly when the bits behind
  the message in its last byte are zero and the length fits in 32 bits.
* `Hd44780.DistinctIffSuits`, `Tty.UnsuitableScreen`: the address map decides which screen sizes
  can be shown at all.
* `Terminal.ScrollByNoneSparesRows`: `scroll(0)` spares the contents of a window exactly if it
  wraps, does not scroll and does not have 255 rows; the cursor then goes below the last row. A
  window that also scrolls is scrolled by one line, one that does not wrap loses its last cell, and
  a wrapping one of 255 rows is cleared.
* `Terminal.ClearingWhilePending`: while a scroll is pending, clearing to the end of the row or of
  the window scrolls first, with the cursor below the window again if it wraps and in the last cell
  if not; a window that does not scroll stays as it is. In a window of 255 rows `wclrtobot` then
  clears every row, as the octet that counts the rows wraps.
* `DnsNames.SkipsNameIffNotRoot`, `MdnsSd.RootIsCompared`: the root name is skipped too far; compared
  with a text, it is rejected unless the text begins with an empty label, accepted if that is the
  whole text, and otherwise passed over.
* `CompareWalk.DivergesIffRevisits`, `CompareWalk.OnlyPointersBetween`: `compare_label` never ends
  exactly on the messages that lead it back to a place with the same rest of the text, by pointers
  only.
* `DnsNames.CutIsSplit`: lengths of labels are octets, so a text is written and compared as its own
  labels exactly if none of them is longer than 255 octets.
* `ResolverRuns.LostIff`: a callback is never called exactly if, while its query m was pending, query
  m + n was made in a table of n entries, or an answer came without error and without an address.
  For m = 0 it is query 1: `resolv_init` marks all entries as done, not unused, so the first two
  queries share a slot (`Resolver.SecondQueryReplacesFirst`).
* `ResolverRuns.LookupMeans`, `ResolverRuns.StaleAddressIsFound`: an answer without an address leaves
  the slot done under the new name with the address of the host that was there before.
* `Resolver.Table.NewData`: only the low octet of the id of a reply is looked at.
* `ArpTable.LookupAfterUpdate`: addresses with a zero half are entered again and again, and an
  older entry can hide the newer one.
* `ArpTable.LateStampsNeverExpire`: entries stamped at tick 136 or later are never dropped, as
  the difference of octets is taken in wider arithmetic.
* `VfsImage.FirstPageIsNotSearched`: a stored file, the last one of its name, is missed exactly if
  it was the first one appended to an empty image, as the first page is not looked at.

## Model

| member | source | states |
|---|---|---|
| OneWireOrder.FirstPassFindsLeast | hardware/onewire/onewire.c:263-268 | the first pass of a search walks to the least code, in LSB-first order, of any device set |
| OneWireOrder.NextPassFindsSuccessor | hardware/onewire/onewire.c:287-340 | a later pass walks to the next greater code: the last discrepancy is the deepest position where the code took 0 and the set also has a 1-branch |
| OneWireOrder.NoDiscrepancyIffGreatest | hardware/onewire/onewire.c:272-274 | no discrepancy is left exactly after the greatest code |
| OneWireOrder.WalkStaysInside | hardware/onewire/onewire.c:287-338 | a walk always ends at a code of the set |
| OneWireRun.RunIsComplete | hardware/onewire/onewire.c:259-345 | the codes of a run are strictly increasing, are exactly the devices, and are as many as they are |
| OneWireRun.AscendingHasNoDuplicates | hardware/onewire/onewire.c:259-345 | no code is reported twice in a run |
| OneWire.PacksIsOneToOne | hardware/onewire/onewire.c:244-255 | eight bytes and 64 LSB-first bits determine each other |
| OneWire.RomCode.SetAddressBit | hardware/onewire/onewire.c:244-255 | sets exactly one bit of the packed code |
| OneWireBus.CommandCodes | hardware/onewire/onewire.h:56-58 | devices start a search at the code 0xF0 only, and a match at 0x55 only |
| OneWire.Master.OwRead | hardware/onewire/onewire.c:140-165 | reads 1 unless a selected device pulls the line low; one slot passes |
| OneWire.Master.OwWriteByte | hardware/onewire/onewire.c:128-137 | gives a command bit by bit; the devices that stay attached for eight slots remain selected |
| OneWire.Master.MatchRom | hardware/onewire/onewire.c:221-241 | leaves selected exactly the device of that code, if it stays attached, and nothing else |
| OneWire.Master.SearchBit | hardware/onewire/onewire.c:287-338 | one bit of a pass: the answers, the choice, the discrepancy and the devices left |
| OneWire.Master.SearchRom | hardware/onewire/onewire.c:259-345 | on a steady bus, the walk and its last discrepancy; on any bus, a reported code was attached throughout the call and only its device can be left selected; -1 exactly without presence |
| OneWire.Master.SearchRomNext | hardware/onewire/onewire.c:259-345 | on a steady bus, the next device, or 0 after the last |
| OneWire.Master.ListDevices | hardware/onewire/ecmd.c:106-133 | a run reports 1 exactly as often as there are devices, each code once and in order, and then 0 |
| Crc.CrcUpdate | core/vfs/vfs-concat.c:42-56 | the form that shifts register and data together feeds the polynomial register with the eight data bits |
| Crc.IButtonUpdate | core/eeprom.c:35-48 | the form that mixes the byte in first feeds the same register with the same bits |
| Crc.CrcCalc | core/vfs/vfs-concat.c:59-69 | the writer's checksum is the shift-register checksum of the record |
| Crc.CrcChecksum | core/eeprom.c:35-48 | the firmware's checksum is the same function of the record |
| Crc.FeedIsBijective | core/vfs/vfs-concat.c:47-53 | for either bit, the step of the register is a bijection |
| Crc.BurstIsDetected | core/vfs/vfs-concat.c:42-69 | records of equal length that differ only in a window of up to eight bits never share a checksum |
| Crc.NineBitsCanEscape | core/vfs/vfs-concat.c:42-69 | a window of nine bits can differ unnoticed |
| Crc.OneByteIsDetected | core/eeprom.c:63-75 | records that differ in exactly one byte never share a checksum |
| Crc.RecordAndItsChecksum | core/eeprom.c:35-48 | a record followed by a byte checks out to zero exactly if the byte is its checksum |
| BitMachines.WindowIsInjective | core/vfs/vfs-concat.c:42-56 | different short bit strings take one register to different registers |
| KeySchedule.SameRoundKeys | core/crypto/cast5.c:99-149 | a change of representation of words carries over to every round key |
| KeySchedule.LinesAreKeys | core/crypto/cast5.c:43-52 | the index tables select the bytes that the unrolled schedule names, in all four modes |
| KeySchedule.InitA | core/crypto/cast5.c:35-41 | the index mask tells the two block steps of the unrolled schedule apart |
| KeySchedule.InitMasks | core/crypto/cast5.c:106-126 | the masks become K1 to K16 of the unrolled schedule |
| Cast5.MasksRepresent | core/crypto/cast5-sbox.h:437-442 | with byte-swapped tables, little-endian memory operations represent the big-endian ones of RFC 2144 |
| Cast5.RotationsRepresent | core/crypto/cast5.c:54-57 | the byte at offset 3 of the swapped words represents the low byte of the key |
| Cast5.UnpackGroup | core/crypto/cast5.c:63-78 | the four rotations packed into nibbles and high bits are read back as their five low bits |
| Cast5.UnpackOther | core/crypto/cast5.c:63-78 | packing one group leaves the other rotations alone |
| Cast5.Context.Init | core/crypto/cast5.c:99-149 | the round loop finds the masking keys and the 5-bit rotations of RFC 2144 for every key and all S-boxes; 12 rounds for up to 80 bits, else 16 |
| Cast5.Context.ReadKeys | core/crypto/cast5.c:267-269 | the expression of the round loop yields the masking key and the rotation of that round |
| Cast5.Context.Enc | core/crypto/cast5.c:257-277 | the little-endian rounds with the code's own round functions compute the big-endian Feistel network of RFC 2144 with those of the standard |
| Cast5.Context.Dec | core/crypto/cast5.c:286-303 | the same network with the round keys in reverse order |
| CastRounds.CodeIsCast | core/crypto/cast5.c:166-248 | in every round the code computes the round function of RFC 2144, whatever the operations, as long as sum and exclusive-or commute |
| CastRounds.RoundTypes | core/crypto/cast5.c:257-277 | rounds 1, 2, 3, 4, ... use the functions of type 1, 2, 3, 1, ... |
| CastRounds.OnlyTheseEntries | core/crypto/cast5.c:160-248 | S-boxes 1 to 4 are looked up by bytes 3 to 0 of the rotated word, and no other entry counts |
| CastRounds.OnlyTogether | core/crypto/cast5.c:166-248 | data and masking key count only through their sum, exclusive-or or difference: moving u from one to the other changes nothing |
| CastRounds.Type1 | core/crypto/cast5.c:166-191 | adding u to S-box 4 adds u, adding it to S-box 3 takes u off, and S-boxes 1 and 2 count by exclusive-or |
| CastRounds.Type2 | core/crypto/cast5.c:194-220 | S-box 4 counts by exclusive-or; adding to S-boxes 1 and 3 adds, to S-box 2 takes off |
| CastRounds.Type3 | core/crypto/cast5.c:222-248 | adding to S-box 4 takes off; S-box 3 counts by exclusive-or; adding to S-boxes 1 and 2 adds |
| CastWords.WordsAreLawful | core/crypto/cast5.c:166-248 | sums, differences and exclusive-or of 32-bit words obey the laws that these results rest on |
| CastWords.RotationMoves | core/crypto/cast5.c:155 | rotation by r takes bit j to position (j + r) modulo 32 |
| CastWords.SumIsSum | core/crypto/cast5.c:166-248 | sums are those of numbers modulo 2^32 |
| CastWords.XorOfBits | core/crypto/cast5.c:194-220 | exclusive-or is that of the bits |
| CastWords.ByteIsByte | core/crypto/cast5.c:160-163 | byte k of a word are its bits 8k to 8k + 7 |
| Rfc2144.OneRoundMore | core/crypto/cast5.c:257-277 | in bytes: without rounds the halves are exchanged; every further round exchanges them again and combines the new first half with the round function of the other under the next keys |
| Rfc2144.KeysInOrder | core/crypto/cast5.c:257-303 | n rounds depend on the first n masking and rotation keys only |
| Rfc2144.InverseOfEachOther | core/crypto/cast5.c:257-303 | decryption undoes encryption and encryption undoes decryption, for every block, number of rounds, keys and S-boxes |
| Rfc1321.EachWordOnce | core/crypto/md5.c:92-113 | every round reads each of the sixteen words exactly once |
| Rfc1321.RotatingIsTurned | core/crypto/md5.c:50-66 | the steps that rename registers are the steps of one rotating register |
| Rfc1321.CompressUnwound | core/crypto/md5.c:68-117 | over any word type on which addition and rotation can be undone, a compressed block can be run backwards to the state before it |
| Rfc1321.DigestSplits | core/crypto/md5.c:120-127 | whole blocks may be processed in any split |
| Md5.Core | core/crypto/md5.c:50-66 | at index 4 - n, one operation on the registers as RFC 1321 names them |
| Md5.CodeIndexIsIndex | core/crypto/md5.c:92-113 | the masked index formulas give the indices that RFC 1321 lists |
| Md5.Round | core/crypto/md5.c:90-95 | a loop nest performs the sixteen steps of its round |
| Md5.Context.Absorb | core/crypto/md5.c:68-117 | four loop nests and the additions are the compression of the block |
| Md5.Context.NextBlock | core/crypto/md5.c:68-118 | adds one block to what was hashed, and one to the counter modulo 2^32, and keeps the context ready for more |
| Md5.Context.HashMessage | core/crypto/md5.c:68-148 | any number of blocks passed one by one, and then the rest, give the digest of the whole message |
| Md5.Context.LastBlock | core/crypto/md5.c:120-148 | hashes all blocks so far and the given bits, padded; this is the MD5 of the whole message wherever the padding is that of RFC 1321 |
| Md5Padding.PaddingIsRfc | core/crypto/md5.c:128-147 | the padding is that of RFC 1321 exactly if the unused bits are zero and the length fits in 32 bits |
| Md5Padding.MarkedByte | core/crypto/md5.c:132-139 | the byte with the padding bit is right exactly if the bits behind it were zero |
| Md5Padding.UncleanEndIsPaddedDifferently | core/crypto/md5.c:132-137 | a message of one bit in a byte of ones is padded differently |
| Md5.Init | core/crypto/md5.c:22-66 | a fresh context with the initial registers, whose operations are those of RFC 1321 bit by bit and in numbers |
| Md5.InitialBytes | core/crypto/md5.c:22-28 | the initial registers in memory are 01 23 45 67 89 ab cd ef fe dc ba 98 76 54 32 10 |
| Md5.MixPerforms | core/crypto/md5.c:30-44 | in each bit F is y or z as x tells, G is x or y as z tells, H is the parity and I is y exclusive-or (x or not z) |
| Md5.WordOpsPerform | core/crypto/md5.c:30-66 | these, sums modulo 2^32, rotation that moves bit j to (j + s) modulo 32, and words read low-order byte first |
| Md5.SameShift | core/crypto/md5.c:71-110 | the tables hold the rotations that RFC 1321 lists |
| Md5.BlockUnwound | core/crypto/md5.c:68-117 | from the result of a block without the state that was added, undoing the 64 operations one by one gives that state |
| WordNumbers.RotlMoves | core/crypto/md5.c:48 | rotation by n takes bit j to position (j + n) modulo 32 |
| WordNumbers.NumberOfSum | core/crypto/md5.c:50-66 | words are added modulo 2^32 |
| WordNumbers.NumberLoaded | core/crypto/md5.c:55-63 | a word in memory is the number with these bytes as digits, low-order byte first |
| Hd44780.DistinctIffSuits | hardware/lcd/hd44780.c:319-348 | the screen sizes for which every cell has a display address of its own, for each controller |
| Hd44780.CellStands | hardware/lcd/hd44780.c:319-348 | in numbers, where the four rows of 20 columns begin in the display memory of each controller |
| Hd44780.RowBounds | hardware/lcd/hd44780.c:306-318 | the place a newline goes to is the next multiple of 20, that of a return the last one |
| Hd44780.Lcd.Put | hardware/lcd/hd44780.c:304-364 | a character goes to the address of the tracked position, which advances modulo 80; newline blanks the rest of a line, return goes to its start |
| Hd44780.Lcd.Goto | hardware/lcd/hd44780.c:226-229 | tracks line * 20 + position modulo 80 |
| Terminal.RowIsBlanked | core/tty/tty.c:109-116 | as many blanks as the row has cells left, printed one by one, blank it and take the cursor past it, after a pending scroll |
| Terminal.ClrToEolBlanks | core/tty/tty.c:118-124 | unless a scroll is pending, exactly the cells from the cursor to the end of its row become blank, and the cursor stays |
| Terminal.TailThenBack | core/tty/tty.c:118-124 | blanking the tail of the row and moving back is that operation |
| Terminal.ClrToBotBlanks | core/tty/tty.c:126-144 | unless a scroll is pending, exactly those cells and all rows below become blank, and the cursor stays |
| Terminal.RowsThenBack | core/tty/tty.c:126-144 | blanking the tail, row after row, and moving back is that operation |
| Terminal.ClearingWhilePending | core/tty/tty.c:109-144 | while a scroll is pending both scroll by one line and leave the cursor behind the new blank row, or do nothing if the window does not scroll; in a window of 255 rows the second then clears all of them |
| Terminal.ScrollByNoneScrollsByOne | core/tty/tty.c:165-188 | scrolling by no lines scrolls a wrapping, scrolling window by one, unless it has 255 rows |
| Terminal.ScrollByNoneClearsLastCell | core/tty/tty.c:165-188 | without wrapping it clears the last cell |
| Terminal.ScrollByNoneOnlyMovesCursor | core/tty/tty.c:165-188 | wrapping without scrolling it takes the cursor below the window and changes no row, unless it has 255 rows |
| Terminal.ScrollByNoneClearsTallest | core/tty/tty.c:126-188 | a wrapping window of 255 rows is cleared |
| Terminal.ScrollByNoneSparesRows | core/tty/tty.c:165-188 | it changes no row of any window exactly in that mode |
| Terminal.WindowShowsPage | core/tty/tty.c:190-254 | whatever is printed, the window shows rows of the unbounded page from a base that is determined by the text, with the cursor in place and at most one empty row pending |
| Terminal.PlainTextFillsPage | core/tty/tty.c:208-247 | text without newlines and returns fills the page in reading order |
| Tty.WriteInWindow | core/tty/tty.c:36-37 | a cell written through the window's map changes that cell of the window and nothing outside |
| Tty.OthersUnchanged | core/tty/tty.c:36-37 | windows that do not overlap do not see each other's output |
| Tty.UnsuitableScreen | hardware/lcd/hd44780.c:330-337 | on other screen sizes there is an image that no display contents can show |
| Tty.DisplayShowsImage | core/tty/tty.c:72-92 | on suitable screens every non-zero cell is at its display address, and a zero cell is zero or blank there |
| Tty.Tty.constructor | core/tty/tty.c:94-106 | the state after initscr on zeroed memory keeps the invariant |
| Tty.Tty.LlPut | core/tty/tty.c:72-92 | moves the display only when needed, writes the character at its place and keeps the positions in step |
| Tty.Tty.Print | core/tty/tty.c:206-247 | newline, return or a character with wrapping, in a window whose cursor is in a row |
| Tty.Tty.Move | core/tty/tty.c:264-276 | moves the cursor, or does nothing outside the window |
| Tty.Tty.AddCh | core/tty/tty.c:190-247 | scrolls first when the cursor waits below the window, then prints; the recursion ends, the outside and the display are kept |
| Tty.Tty.SpaceToEol | core/tty/tty.c:109-116 | prints as many blanks as the row has cells left |
| Tty.Tty.ClrToEol | core/tty/tty.c:118-124 | the same with the cursor restored |
| Tty.Tty.ClrToBot | core/tty/tty.c:126-144 | clears row by row and restores the cursor, if it was in a row |
| Tty.Tty.Clear | core/tty/tty.c:146-163 | all rows blank, cursor home, in the main window and in sub-windows |
| Tty.Tty.Scroll | core/tty/tty.c:165-188 | rows move up, the last ones are blank and the cursor is at the first of them, or the window is cleared; nothing outside changes |
| Tty.Tty.AddStr | core/tty/tty.c:249-254 | prints the characters in turn |
| DnsNames.SplitJoined | protocols/mdns_sd/mdns_sd.c:66-80 | labels and dotted text determine each other |
| DnsNames.WireIsRead | protocols/mdns_sd/mdns_sd.c:122-149 | labels on the wire are read back, followed by the name that continues them |
| DnsNames.EncodedIsRead | protocols/mdns_sd/mdns_sd.c:62-83 | a list of proper labels is read back from its encoding |
| DnsNames.PointerIsRead | protocols/mdns_sd/mdns_sd.c:255-262 | labels ended by a pointer to an earlier name are read as followed by that name |
| DnsNames.SkipsNameIffNotRoot | protocols/mdns_sd/mdns_sd.c:40-57 | the walk ends exactly behind a well-formed name if and only if it is not the root |
| DnsNames.EncodedIsSkipped | protocols/mdns_sd/mdns_sd.c:40-57 | the walk ends where the encoding of a list of labels ends exactly if no label is longer than 63 and none but the first is empty |
| DnsNames.WrittenName | protocols/mdns_sd/mdns_sd.c:40-149 | the encoding of a dotted name of proper labels is skipped as a whole, read back, and comparable with the text |
| MdnsSd.ParseName | protocols/mdns_sd/mdns_sd.c:40-57 | returns the end of that walk |
| DnsNames.CutIsSplit | protocols/mdns_sd/mdns_sd.c:68-80 | with lengths kept in octets, the labels taken from a text are its own exactly if none is longer than 255 octets |
| MdnsSd.AppendLabel | protocols/mdns_sd/mdns_sd.c:62-83 | writes the encoding of those labels for every text, a single zero for no text, and nothing else |
| CompareWalk.DivergesIffRevisits | protocols/mdns_sd/mdns_sd.c:122-149 | on any message, comparing never ends exactly if it comes back to a place with the same rest of the text |
| CompareWalk.DivergesIffStillWalking | protocols/mdns_sd/mdns_sd.c:122-149 | and exactly if it has not ended after as many passes as there are places times rests of the text |
| CompareWalk.OnlyPointersBetween | protocols/mdns_sd/mdns_sd.c:128-131 | on the way back it passes only pointers |
| MdnsSd.NameIsCompared | protocols/mdns_sd/mdns_sd.c:122-149 | for a name other than the root, if pointers lead to before their run of labels, it ends, and accepts exactly if one of the decompressed label list and the text's is a beginning of the other |
| MdnsSd.RootIsCompared | protocols/mdns_sd/mdns_sd.c:132-147 | the root is rejected if the text begins with a label that is not empty, accepted if the text is one empty label, and otherwise passed over |
| MdnsSd.CompareLabel | protocols/mdns_sd/mdns_sd.c:122-149 | terminates wherever that walk ends, with its result, and that result means what the two rows before say |
| MdnsSd.AppendName | protocols/mdns_sd/mdns_sd.c:101-106 | two parts are written as one name |
| MdnsSd.AppendAnswerHeader | protocols/mdns_sd/mdns_sd.c:96-115 | name, type, class and lifetime in network order, and where the length belongs |
| MdnsSd.AppendPtrAnswer | protocols/mdns_sd/mdns_sd.c:250-266 | the record's owner is the service, its data reads as instance and service, it is of type 12, class 1 and 600 seconds to live, and its length field covers the data |
| MdnsSd.InfoIsRead | protocols/mdns_sd/mdns_sd.c:109-113 | type, class and lifetime are read back from what was written |
| MdnsSd.PtrRecordIsPassed | protocols/mdns_sd/mdns_sd.c:250-266 | the walk of a resolver passes the record and goes on exactly behind it |
| DnsAnswers.WalkFindsFirst | protocols/dns/resolv.c:311-356 | over any well-formed answer section the walk is safe and takes the first address record |
| ResolverSpec.PollTakesEnergy | protocols/dns/resolv.c:201-253 | a poll takes some of a bounded measure from the table while a query is pending, and keeps pending ones pending or fails them |
| ResolverSpec.QueriesExpire | protocols/dns/resolv.c:192-255 | without replies and new queries, after 30 polls per entry every pending query has failed and nothing else has changed |
| ResolverSpec.LoneQuery | protocols/dns/resolv.c:201-253 | a query alone in the table asks at polls 1, 2, 3, 5, 8, 12, 17 and 23, and at the 30th poll fails with a call of its callback, no sooner and no later |
| ResolverSpec.PollIsFair | protocols/dns/resolv.c:206-213 | a poll calls only waiting callbacks, with NULL, and none twice |
| ResolverSpec.WaitingCallbacksAreCalled | protocols/dns/resolv.c:192-255 | by then each waiting callback has been called exactly once, with NULL, and no other has |
| Resolver.Table.constructor | protocols/dns/resolv.c:471-484 | every entry done, no callback called |
| Resolver.Table.FindSlot | protocols/dns/resolv.c:372-391 | the first unused entry, or else the first of the greatest positive age |
| ResolverRuns.OldestIsChosen | protocols/dns/resolv.c:377-391 | an oldest entry is taken while the sequence number has not wrapped |
| Resolver.Table.Query | protocols/dns/resolv.c:368-400 | one step of a run: the entry becomes a new query and keeps its address, all others stay, and no callback is called |
| Resolver.SecondQueryReplacesFirst | protocols/dns/resolv.c:368-400 | the second query after initialisation takes the slot of the first, whose callback is not called in any state any run comes to from there |
| ResolverRuns.RunIsSound | protocols/dns/resolv.c:192-400 | in every state of every run of queries, polls and replies, no callback was called twice, and none that waits was called or waits twice |
| ResolverRuns.SlotsGoRound | protocols/dns/resolv.c:368-400 | up to the wrap of the sequence number, query m from initialisation on takes slot (m - 1) mod n of n, and query 0 slot 0 |
| ResolverRuns.NextInSlotIsNext | protocols/dns/resolv.c:377-391 | the next query in the slot of query m is m + n, or 1 for m = 0 |
| ResolverRuns.StepLoses | protocols/dns/resolv.c:261-400 | a step loses a callback exactly if a query takes its slot while it waits, or an answer without error and address comes for it; a lost one stays lost |
| ResolverRuns.LostInSlotIff | protocols/dns/resolv.c:261-400 | in runs of any length, a callback is lost exactly if a query took the slot of its query, or such an answer came for it, while it waited |
| ResolverRuns.LostIff | protocols/dns/resolv.c:261-400 | the callback of query m is lost exactly if query m + n (1 for m = 0) was made, or such an answer came, while it was pending |
| ResolverRuns.LostIsNeverCalled | protocols/dns/resolv.c:192-400 | a lost callback is not called in any later state |
| ResolverRuns.CalledUnlessLost | protocols/dns/resolv.c:192-255 | left alone for 30 polls per entry, every callback ever passed has been called exactly if it is not lost |
| ResolverRuns.LookupMeans | protocols/dns/resolv.c:415-431 | what a lookup finds was queried under that name, and its address is that of the reply exactly if this carried one, else the one the slot had before |
| ResolverRuns.StaleAddressIsFound | protocols/dns/resolv.c:393-431 | for a table of any size, a run after which the address of one host is found under the name of another |
| Resolver.PutQuestion | protocols/dns/resolv.c:222-250 | the packet is a header with the slot number, the encoded name, type A and class IN |
| Resolver.QuestionIsRead | protocols/dns/resolv.c:222-250 | the packet reads as one question with the slot number as its id, the labels of the name, type 1 and class 1, and nothing else |
| Resolver.Table.Tick | protocols/dns/resolv.c:206-221 | one entry's timer, retries, failure and callback |
| Resolver.Table.Periodic | protocols/dns/resolv.c:192-255 | the table and the calls change as in the specified poll, and the question sent is that of the entry due |
| Resolver.FindAddress | protocols/dns/resolv.c:311-356 | the address in the first address record of the walk |
| Resolver.Table.NewData | protocols/dns/resolv.c:261-359 | what becomes of the table and the calls for every reply; every callback is still called at most once |
| Resolver.ReplyIsRead | protocols/dns/resolv.c:281-356 | a built reply is read back: failure with the low four bits of its second flag octet if those are not zero or it counts no answer, else the first address among its records, else nothing |
| Resolver.TakeReply | protocols/dns/resolv.c:261-359 | any such reply, with any id, flags, counts, name and records, ends the query in the slot of its low id octet with that outcome, or changes nothing if that slot does not wait |
| Resolver.Table.Lookup | protocols/dns/resolv.c:415-431 | finds an address exactly if an entry is done under that name, and then that of the first such entry |
| ArpTable.EvictedIsOldest | protocols/uip/uip_arp.c:210-224 | the entry thrown away is an oldest one while no stamp is ahead of the clock |
| ArpTable.UniqueIsKept | protocols/uip/uip_arp.c:171-231 | an update keeps at most one entry for every address without a zero half |
| ArpTable.LookupAfterUpdate | protocols/uip/uip_arp.c:180-198 | a lookup finds the new hardware address exactly if no half is zero, or no other entry for it comes first, or that one agrees |
| ArpTable.ZeroHalfIsFoundStale | protocols/uip/uip_arp.c:181-182 | an address with a zero half found with its old hardware address after an update |
| ArpTable.OthersAreKept | protocols/uip/uip_arp.c:200-230 | all other lookups are unchanged but for the one entry evicted, which only happens when the table is full |
| ArpTable.FreshEntryExpires | protocols/uip/uip_arp.c:153-167 | a fresh entry is dropped at its 120th tick and not before, if its stamp allows |
| ArpTable.FoundFor119Ticks | protocols/uip/uip_arp.c:153-231 | what an update stores is found for the next 119 ticks and no longer, or for ever if its stamp was 136 or later; an address already in the table counts from the update on |
| ArpTable.OneEntryIsWritten | protocols/uip/uip_arp.c:180-230 | an update writes one entry, with the time of the update, and no other |
| ArpTable.LookupIsStory | protocols/uip/uip_arp.c:153-231 | over any run of updates and ticks that learns no more addresses than the table has entries, a lookup gives the hardware address learned last, if that was less than 120 ticks ago or stamped 136 or later, and nothing otherwise |
| ArpTable.LateStampsNeverExpire | protocols/uip/uip_arp.c:160-162 | entries stamped at tick 136 or later are never dropped |
| ArpTable.TicksOnlyRemove | protocols/uip/uip_arp.c:153-167 | ticks remove addresses and change nothing else |
| ArpTable.Table.constructor | protocols/uip/uip_arp.c:135-141 | an empty table on any memory |
| ArpTable.Table.Timer | protocols/uip/uip_arp.c:153-167 | one tick ages the whole table |
| ArpTable.Table.Update | protocols/uip/uip_arp.c:170-231 | the entry found, free or oldest is filled, all others stay |
| ArpTable.Table.Find | protocols/uip/uip_arp.c:473-485 | the first entry for the address |
| VfsImage.HeaderLayout | core/vfs/vfs-concat.c:140-146 | the ten octets of a header in numbers: 0x23, the name with zeros up to six octets, the length low octet first, the checksum of the eight octets before it |
| VfsImage.HeaderMatches | core/vfs/vfs_inline.c:35-48 | a written header is recognised exactly under the file's name, or under longer names that begin with it if it fills the six bytes, and yields its length |
| VfsImage.FilledAgrees | core/vfs/vfs_inline.c:46 | comparing up to six bytes with a name filled up with zeros: equality for names of up to six bytes, and of the first six for longer ones |
| VfsImage.AppendedLayout | core/vfs/vfs-concat.c:124-147 | a file is appended at the least page boundary not before the end of the image, which stays as it is, over octets 0xFF |
| VfsImage.FilesStand | core/vfs/vfs-concat.c:124-147 | every appended file stays where it was written, in any memory that begins with the image |
| VfsImage.PagesIncrease | core/vfs/vfs-concat.c:126-129 | files appended later begin at later pages |
| VfsImage.SearchFindsLastFile | core/vfs/vfs_inline.c:29-62 | the search finds the file of that name appended last, or nothing if there is none or it begins in the first page: exactly if no later page that holds something else looks like a header for the name |
| VfsImage.InFirstPage | core/vfs/vfs-concat.c:126-129 | a file begins in the first page exactly if it was the first one appended to an empty image |
| VfsImage.FirstPageIsNotSearched | core/vfs/vfs_inline.c:32-33 | the last file of its name is missed exactly in that case, and found at its page otherwise |
| VfsImage.Concat | core/vfs/vfs-concat.c:124-147 | the bytes emitted: image, filler, header and content, or only the first two for a name that is too long |
| VfsImage.Open | core/vfs/vfs_inline.c:29-62 | a handle for the last page but the first whose header matches, if there is one |
| VfsImage.HandleCoversContent | core/vfs/vfs_inline.c:56-58 | a handle opened for a file covers exactly its content |
| VfsImage.Handle.Read | core/vfs/vfs_inline.c:72-84 | the next bytes, no more than the file has left; the position follows |
| VfsImage.Handle.Seek | core/vfs/vfs_inline.c:87-116 | the 16-bit target, taken exactly if it is not behind the end |
| VfsImage.OpenFile | core/vfs/vfs_inline.c:29-62 | on a built image, a handle at the beginning of exactly the content of the last file of the name, unless there is none or it is the first one of an empty image |
| VfsImage.ReadSeries | core/vfs/vfs_inline.c:72-84 | reads through a handle, one after the other, return those pieces of the content it covers |
| VfsImage.ReadsReturnContent | core/vfs/vfs_inline.c:72-84 | the pieces that any series of reads returns are the bytes in order up to the end of the file |
| ShiftChains.Hc595.constructor | hardware/io_expander/hc595.c:33-48 | all outputs off |
| ShiftChains.Hc595.Update | hardware/io_expander/hc595.c:62-84 | for any number of registers the outputs become the bits of the cache, in one step, whatever the chain held |
| ShiftChains.Hc595.WritePort | hardware/io_expander/hc595.c:50-55 | the same after one port is written |
| ShiftChains.OutputIs | hardware/io_expander/hc595.c:68-80 | output 8i + x is bit x of register i |
| ShiftChains.OthersKeepTheirOutputs | hardware/io_expander/hc595.c:50-55 | writing one port changes no output of another |
| ShiftChains.ReadPin | hardware/io_expander/hc165.c:41-68 | for any chain length, the eight inputs of the register asked for, whatever the accumulator held |

## Left out

- OneWire.Master.SearchRom: the voltage timing of the slots is not modelled; a slot is one step in which the line has one level.
- OneWire.Master.ListDevices: the filter on device families and the text output of the list command.
- Cast5.Context.Init: keys longer than 128 bits, for which the source has no room.
- Md5.Context.LastBlock: the message must lie in memory; the length is one 16-bit argument, as in the source.
- Tty.Tty.AddCh: windows must lie inside the image, which subwin leaves to its caller; screens are at most 255 by 255.
- Hd44780.Lcd.Put: pins, nibbles, delays, custom characters and display shifts; only positions and display memory are kept.
- MdnsSd.ParseName: that the octets the walk reads belong to the message is a precondition, as the source reads on without looking.
- MdnsSd.CompareLabel: messages on which the walk does not end or leaves the message; what the result means for names whose pointers do not lead to before their run of labels, and for the root name against a longer text that begins with an empty label, for which the source goes on behind the name.
- Resolver.Table.NewData: that the walk over the answers stays in the message is a precondition, as the source reads on without looking.
- ResolverRuns.LostIff: the number of the query that takes a slot is only stated for the first 256 queries, before the sequence number wraps; `ResolverRuns.LostInSlotIff` has no such bound.
- Resolver.Table.Query: names of 32 characters or more, for which the source has no room; callbacks that call the resolver themselves.
- ArpTable.EvictedIsOldest: nothing is claimed about the age of the entry thrown away once the tick count has wrapped.
- VfsImage.OpenFile: bytes at the beginning of a later page that look like a header for the name are excluded by a premise, since nothing in the format prevents them; `VfsImage.SearchFindsLastFile` proves that premise exact.
- VfsImage.Concat: reading the files, the compressed variant of a file name and the limits of the buffers.
- The VT100 and S1D15G10 output of the tty layer, whose clear command leaves the tracked cursor behind, formatted printing and the input queue.
- The service table of mdns_new_data, its SRV, TXT and address records, and has_answer.
- ARP packets themselves (uip_arp_ipin, uip_arp_arpin, uip_arp_out).
- The EEPROM layout, and the configuration calls of the resolver.
- The HMAC and CBC use of MD5 and CAST5 in the tunnel code.
- The numeric contents of the S-boxes and of the MD5 table: every result holds for arbitrary tables.
- Other drivers, protocols and tools of the repository, which are hardware access or glue over stacks that are not part of this model.
