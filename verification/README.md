# LavoroL, verified

A Dafny model of the parts of the LavoroL shell and of its copy of the gnu-efi library whose correctness
is not obvious from reading them, with proofs of what they are for. Every file is one component:

| file | component |
|---|---|
| `Pyramids.dfy` | the Pyramids program: counting trees by their Euler tour |
| `AntTSP.dfy` | the AntTSP program: ants searching for a short tour |
| `MetaMatch.dfy` | the library's glob matcher |
| `Crc.dfy` | the library's CRC-32 and the checksum field of EFI table headers |
| `DevicePath.dfy` | the library's device paths: splitting, joining, re-aligning |
| `Numbers.dfy` | the library's number printers and number parsers |
| `Print.dfy` | the library's buffered, truncating print output |
| `Streams.dfy` | buffered file reading and writing, and the shell's `cp` and `addline` |
| `Tasks.dfy` | the kernel's task queue and its scheduler |
| `Screen.dfy` | screen images: scaling and drawing |
| `Font.dfy` | loading a font from strip images |
| `CStrings.dfy`, `ByteBuffers.dfy`, `Sequences.dfy`, `Arithmetic.dfy`, `Folds.dfy` | 16-bit strings, bytes written over bytes, facts about sequences and about division, machines that fold a sequence |

Conventions. Code that works step by step is modelled by methods on classes and arrays with the source's
own fields, loops and branches; what it computes is stated by functions and predicates on plain values,
and what the program promises is proved about those. A pointer into a buffer is an offset into a sequence
or array. A C string is a sequence of 16-bit characters without its terminator. Integers are unbounded
except where a width matters: the recurrence of Pyramids is computed in a 64-bit type, so that every step
is shown to fit; the CRC is computed on bit vectors; the ants' random numbers wrap at 32 bits;
`Atoi` and `xtoi` wrap at 64 bits; lengths of device path nodes are two bytes; characters that are written
to a file are cut to eight bits. `double` is modelled by `real`.

A `ghost` parameter or result names what a buffer means or what has happened (the nodes of a device path, the
tours built so far); the source has no such value and nothing that is computed depends on it.

What the environment does is a contract. A read from a file returns at least one byte and at most as many
as were asked for, or none exactly at the end of the file; how a file is cut into reads is left open. A
write is complete. What a task does when it runs is a list of tasks that it adds. The image a font is cut
from is given, and so are the console input and the towns' distances.

Where code and documentation differ, the model follows the code. `cp` does not truncate its target, so the
copy is identical only if the target was not longer (`Streams.CopyIsIdentical`). The limit on the nodes of
an instance in `DevicePathInstance` is written in octal and comes after the test for an end node, so 513 nodes are
walked; a path with a longer instance is split elsewhere (`DevicePaths.PiecesAreInstances`). `AppendDevicePath` is
said to append the second path to every instance of the first. As its copy of the second path ends with that
path's own end node, a walk of the result meets the first instance and the second path and nothing more, so it is
the whole first path followed by the second only if there is one instance, of up to 513 nodes
(`DevicePaths.AppendsAll`). If there are several, what is written fits the buffer only if the second path is no
longer than the first (`DevicePaths.WhenRoomy`). A re-aligned device path can be walked only if no node was longer
than 65528 bytes (`DevicePathUnpacking.WalkableIfFitting`). `LReader::Read` on a reader that has fetched nothing
yet claims one byte of an empty file (`Streams.LReader.Read`). `UnicodeSPrint` calls a size of 0 no limit; that
case is not part of this model.

## Model

| member | source | states |
|---|---|---|
| EulerTrees.TourOfGraft | src/packages/ACM/Pyramids.cpp:18-20 | a tree splits into its first child and the rest at the place where its root is visited again: the string splits the same way |
| EulerTrees.TreesAreTours | src/packages/ACM/Pyramids.cpp:13-22 | the trees assembled by the recurrence's splits are exactly the trees whose Euler tour is the string |
| EulerTrees.TreesUpToAreTours | src/packages/ACM/Pyramids.cpp:18-20 | after the splits before n have been tried, exactly the trees whose first child's tour ends before n have been found |
| EulerTrees.GraftsCount | src/packages/ACM/Pyramids.cpp:20 | grafting is injective: the number of combined trees is the product of the two numbers |
| EulerTrees.TreesUpToCount | src/packages/ACM/Pyramids.cpp:18-20 | a further split adds the product of the two counts and counts no tree twice |
| EulerTrees.CountIsTheNumberOfTrees | src/packages/ACM/Pyramids.cpp:13-22 | any finite set that consists of exactly the trees with tour s has as many elements as the set the recurrence assembles |
| Pyramids.NextSplit | src/packages/ACM/Pyramids.cpp:18-20 | on intervals of the global string: one turn of the loop brings the count of the trees found from split i to split i + 1 |
| Pyramids.AddProduct | src/packages/ACM/Pyramids.cpp:20 | the update keeps the running count modulo 10^9, and neither the product nor the sum leaves 64 bits |
| Pyramids.Solver.F | src/packages/ACM/Pyramids.cpp:13-22 | the memo: given that a cell with the current stamp is finished or belongs to a strictly enclosing open call, F returns the tree count of the interval modulo 10^9, never changes a cell that was stamped before, and leaves every cell it stamps finished |
| Pyramids.Solver.TrySplit | src/packages/ACM/Pyramids.cpp:18-20 | one turn of the loop: while the cell of the call is half filled, the two recursive calls leave it alone, and it then counts the trees of one split more |
| Pyramids.Solver.Query | src/packages/ACM/Pyramids.cpp:25-36 | the answer is the number of trees whose tour is the line, modulo 10^9, whatever earlier queries left in the tables; the epoch advances by one; an empty line ends the program |
| Pyramids.Solver.Session | src/packages/ACM/Pyramids.cpp:24-39 | over the whole run every line up to the first empty one is answered, each with its own number of trees |
| Globs.FirstPiece | src/gnu-efi-3.0.18/lib/str.c:325-332 | a string is in the language of a pattern iff a prefix fits the first token and the remainder is in the language of the rest |
| Globs.Star | src/gnu-efi-3.0.18/lib/str.c:341-349 | trying the rest of the pattern here and at every later suffix misses no way to split the string at a star |
| Globs.PlainPattern | src/gnu-efi-3.0.18/lib/str.c:399-405 | a pattern of ordinary characters matches exactly itself |
| Globs.QueryPattern | src/gnu-efi-3.0.18/lib/str.c:351-357 | n question marks match exactly the strings of length n |
| Globs.EndingPattern | src/gnu-efi-3.0.18/lib/str.c:341-349 | a star in front of ordinary characters matches exactly the strings that end with them |
| Globs.ListClass | src/gnu-efi-3.0.18/lib/str.c:366-394 | a class without a dash names exactly its characters |
| Globs.RangeClass | src/gnu-efi-3.0.18/lib/str.c:366-394 | a class that is one range names the characters between its ends, and the ends themselves even if they are in the wrong order |
| Globs.OpenRange | src/gnu-efi-3.0.18/lib/str.c:366-394 | a range without a low end begins at 0; a dash at the end names nothing |
| MetaMatcher.StepClass | src/gnu-efi-3.0.18/lib/str.c:359-397 | a class takes one character named by its body, and the pattern goes on behind the first closing bracket |
| MetaMatcher.ScanClass | src/gnu-efi-3.0.18/lib/str.c:366-394 | the class scan finds a match iff the character is named by the body: on its own, or by a range whose low end is the character before the dash (0 if none) and whose high end is the one after it; it then stands behind the bracket |
| MetaMatcher.MatchRun | src/gnu-efi-3.0.18/lib/str.c:341-349 | the backtracking loop succeeds iff some suffix matches the rest of the pattern |
| MetaMatcher.MetaMatch | src/gnu-efi-3.0.18/lib/str.c:325-409 | terminates and returns true iff the rest of the string is in the language of the rest of the pattern, for every pattern whose classes are closed |
| MetaMatcher.WholeString | src/gnu-efi-3.0.18/lib/str.c:325-332 | called on a whole string and a whole pattern, that is membership in the pattern's declarative language |
| ByteSerialCrc.TakeIsEightBits | src/gnu-efi-3.0.18/lib/crc.c:212 | taking a byte into the register is clocking it in bit by bit, least significant first |
| ByteSerialCrc.BytesAreBits | src/gnu-efi-3.0.18/lib/crc.c:209-215 | for every message the byte-serial register equals the bit-serial one |
| ByteSerialCrc.Shift8Small | src/gnu-efi-3.0.18/lib/crc.c:212 | eight clocks can be undone when the top byte of the result is clear |
| ByteSerialCrc.EqualRegistersEqualBytes | src/gnu-efi-3.0.18/lib/crc.c:211-215 | from one register, inputs that agree beyond their first four bytes and lead to one register are equal |
| ByteSerialCrc.BurstChangesCrc | src/gnu-efi-3.0.18/lib/crc.c:201-218 | two messages of one length that differ only within four consecutive bytes have different CRCs |
| Crc.TableIsShift8 | src/gnu-efi-3.0.18/lib/crc.c:22-63 | each of the 256 constants of the table is eight clocks of the polynomial 0xEDB88320 applied to its index |
| Crc.TakeByTable | src/gnu-efi-3.0.18/lib/crc.c:212 | looking up the low byte and shifting the others equals taking the byte |
| Crc.LookUpEntry | src/gnu-efi-3.0.18/lib/crc.c:212 | the same on the wider accumulator as long as it is below 2^32 |
| Crc.CalculateCrc | src/gnu-efi-3.0.18/lib/crc.c:201-218 | the table-driven loop computes the bit-at-a-time reflected CRC-32 with initial value and final xor 0xFFFFFFFF of every buffer |
| Crc.CheckValue | src/gnu-efi-3.0.18/lib/crc.c:201-218 | the CRC of the nine digits 1 to 9 is the check value of CRC-32 |
| Crc.LittleIsPositional | src/gnu-efi-3.0.18/lib/crc.c:93-116 | the field is read with its lowest byte first |
| Crc.ChecksumOfZeroField | src/gnu-efi-3.0.18/lib/crc.c:93-116 | where the field is zero the checksum is the CRC of the bytes as they are |
| Crc.SetCrcAltSize | src/gnu-efi-3.0.18/lib/crc.c:93-116 | the header is as before but for its CRC32 field, which holds the checksum of the covered bytes with that field counted as zero |
| Crc.CheckCrcAltSize | src/gnu-efi-3.0.18/lib/crc.c:146-198 | the header is unchanged; the answer is whether the size is not zero, is within the limit and the field holds the checksum |
| Crc.SetThenCheck | src/gnu-efi-3.0.18/lib/crc.c:93-198 | what SetCrcAltSize leaves is accepted for the same size |
| Crc.ShortChangeIsRejected | src/gnu-efi-3.0.18/lib/crc.c:146-198 | an accepted header is rejected after any real change within four consecutive covered bytes outside the field |
| DevicePathNodes.WalkIsEncoding | src/gnu-efi-3.0.18/inc/efidevp.h:50-57 | the bytes passed by a walk are the encoding of the nodes it met, which end with their only end-of-path node |
| DevicePathNodes.EncodingIsWalked | src/gnu-efi-3.0.18/inc/efidevp.h:50-57 | walking an encoded path meets exactly its nodes |
| DevicePaths.InstancesFillThePath | src/gnu-efi-3.0.18/lib/dpath.c:286-307 | the sizes of the instances, each with four bytes for its end node, sum to the size of the path |
| DevicePaths.InstancesMakeThePath | src/gnu-efi-3.0.18/lib/dpath.c:48-106 | the path is its instances in order, each followed by a node that ends one; none of the nodes inside does |
| DevicePaths.FindEndType | src/gnu-efi-3.0.18/lib/dpath.c:68-85 | the loop stops at the first end node of either kind, or at the 514th node if that comes first: it is at an end node iff at most 513 nodes come before one |
| DevicePaths.DevicePathInstance | src/gnu-efi-3.0.18/lib/dpath.c:48-106 | reports the size of the nodes passed and the path behind the node it stopped at, or none if that node has the subtype of an entire end; NULL gives NULL |
| DevicePaths.TakePiece | src/gnu-efi-3.0.18/lib/dpath.c:48-106 | one call takes one piece off the pieces that repeated calls give |
| DevicePaths.PiecesAreInstances | src/gnu-efi-3.0.18/lib/dpath.c:68-98 | the pieces are the instances of the path iff no instance has more than 513 nodes |
| DevicePaths.TakeInstance | src/gnu-efi-3.0.18/lib/dpath.c:48-106 | if the first instance has up to 513 nodes, one call takes it off the list of instances |
| DevicePaths.DevicePathInstanceCount | src/gnu-efi-3.0.18/lib/dpath.c:108-121 | for every path repeated calls end, and give every piece once with its own size, and their number is the number of pieces; without instances of more than 513 nodes these are the instances |
| DevicePaths.SplitSizesFillThePath | src/gnu-efi-3.0.18/lib/dpath.c:48-121 | the sizes reported, each plus four, sum to what DevicePathSize computes |
| DevicePaths.DevicePathSize | src/gnu-efi-3.0.18/lib/dpath.c:286-307 | the size is that of the encoding of the nodes |
| DevicePaths.DuplicateDevicePath | src/gnu-efi-3.0.18/lib/dpath.c:309-334 | the copy is a new buffer with the same nodes |
| DevicePaths.JoinedInstances | src/gnu-efi-3.0.18/lib/dpath.c:397-433 | turning the end of a into an end of instance and following it by b gives a path with exactly the instances of a followed by those of b |
| DevicePaths.AppendDevicePathInstance | src/gnu-efi-3.0.18/lib/dpath.c:397-433 | the new buffer holds that path; for NULL, the second path |
| DevicePaths.AppendDevicePath | src/gnu-efi-3.0.18/lib/dpath.c:124-194 | a walk of the new buffer meets the first piece of the first path and then the second path, however many instances the first has, whenever what is written fits the buffer; a missing argument gives the other one |
| DevicePaths.AppendsAll | src/gnu-efi-3.0.18/lib/dpath.c:176-190 | that is the whole of the first path followed by the second iff the first has one instance, of up to 513 nodes |
| DevicePaths.WhenRoomy | src/gnu-efi-3.0.18/lib/dpath.c:163-186 | without instances of more than 513 nodes, what is written fits the buffer iff there is one instance or the second path is no longer than the first |
| DevicePaths.AppendDevicePathNode | src/gnu-efi-3.0.18/lib/dpath.c:197-230 | a walk of the new buffer meets the first piece of the path, the single node, and one end node |
| DevicePaths.SetDevicePathEndNode | src/gnu-efi-3.0.18/inc/efidevp.h:66-71 | only the four bytes of the node are written, and they are the constant the library uses as end of path |
| DevicePathUnpacking.UnpackedSize | src/gnu-efi-3.0.18/lib/dpath.c:344-359 | aligning the running total equals aligning every length: the first pass computes the size of the re-aligned path |
| DevicePathUnpacking.UnpackDevicePath | src/gnu-efi-3.0.18/lib/dpath.c:336-394 | for every path the second pass fills exactly the size of the first one; the result can be walked iff no node is longer than 65528 bytes, and then every node met has the type, the subtype and the payload of the original one, is marked as unpacked, is padded with the fewest zeros, and stands at a multiple of 8 |
| DevicePathUnpacking.AllAreAligned | src/gnu-efi-3.0.18/lib/dpath.c:374-390 | re-aligning loses nothing: every payload is the beginning of the new one and zeros follow it, fewer than 8 |
| DevicePathUnpacking.WalkableIfFitting | src/gnu-efi-3.0.18/lib/dpath.c:366-390 | the re-aligned path can be walked iff no node is longer than 65528 bytes: the walk is stuck at the first longer one |
| DevicePathUnpacking.Aligned | src/gnu-efi-3.0.18/lib/dpath.c:377-390 | every node of the result starts at a multiple of 8 |
| DevicePathUnpacking.TooLongToUnpack | src/gnu-efi-3.0.18/lib/dpath.c:380-381 | the padded length is lost from its two bytes, which become zero, exactly for nodes longer than 65528 |
| Numerals.ValueOfDigits | src/gnu-efi-3.0.18/lib/print.c:1387-1390 | the digits that repeated division gives stand for the number |
| NumberText.StoreDigits | src/gnu-efi-3.0.18/lib/print.c:1348-1352 | the first loop leaves the numeral backwards |
| NumberText.ValueToHex | src/gnu-efi-3.0.18/lib/print.c:1330-1358 | the buffer holds the hexadecimal numeral of every 64-bit value, terminated |
| NumberText.ValueToString | src/gnu-efi-3.0.18/lib/print.c:1361-1404 | the buffer holds the sign and the decimal numeral of every signed 64-bit value, grouped if commas are asked for, terminated; what these are is said by the rows below |
| NumberText.CopyDigits | src/gnu-efi-3.0.18/lib/print.c:1392-1402 | the countdown puts the commas where grouping by threes from the right puts them |
| NumberText.BegunIsGrouped | src/gnu-efi-3.0.18/lib/print.c:1392-1402 | written from the left with a comma wherever a multiple of three digits is left, a numeral is the one grouped from the right |
| NumberText.CommaPlaces | src/gnu-efi-3.0.18/lib/print.c:1392-1402 | counted from the right, every fourth character of a grouped numeral is a comma and no other is |
| NumberText.GroupedLength | src/gnu-efi-3.0.18/lib/print.c:1392-1402 | a grouped numeral of n digits has (n - 1) / 3 commas and does not begin with one |
| NumberText.CommasCanBeTakenOut | src/gnu-efi-3.0.18/lib/print.c:1392-1402 | for every signed value, without its commas the grouped form is the plain one, sign included |
| NumberText.NegativeIsSigned | src/gnu-efi-3.0.18/lib/print.c:1382-1391 | a negative value is written as a minus sign in front of what reads as its opposite, down to -2^63 |
| NumberText.PrintedAlphabet | src/gnu-efi-3.0.18/lib/print.c:1327-1328 | the digits printed are 0 to 9 and A to F |
| NumberText.HexAlphabets | src/gnu-efi-3.0.18/lib/str.c:283-292 | a character stands for d iff it is the d-th of 0-9A-F or of 0-9a-f |
| NumberText.DecimalAlphabet | src/gnu-efi-3.0.18/lib/str.c:311-318 | in base 10 a character stands for d iff it is the d-th of 0-9 |
| NumberText.xtoi | src/gnu-efi-3.0.18/lib/str.c:267-296 | after spaces, the value modulo 2^64 of the longest run of hexadecimal digits of either case |
| NumberText.Atoi | src/gnu-efi-3.0.18/lib/str.c:298-323 | after spaces, the value modulo 2^64 of the longest run of decimal digits |
| NumberText.ShiftInHex | src/gnu-efi-3.0.18/lib/str.c:289 | the `or` of the shifted value and the digit is their sum |
| NumberText.ParsePrinted | src/gnu-efi-3.0.18/lib/str.c:267-323 | the number read from the numeral of any 64-bit value is the value |
| NumberText.ParsePrintedInText | src/gnu-efi-3.0.18/lib/str.c:267-323 | so it is with any number of spaces in front and any text behind that does not begin with a digit |
| NumberText.ParseLowerCase | src/gnu-efi-3.0.18/lib/str.c:283-292 | so it is for a hexadecimal numeral in lower case |
| NumberText.HexRoundTrip | src/gnu-efi-3.0.18/lib/print.c:1330-1358 | xtoi(ValueToHex(v)) = v for all 64-bit v |
| NumberText.DecimalRoundTrip | src/gnu-efi-3.0.18/lib/print.c:1361-1404 | Atoi(ValueToString(v)) = v for v from 0 to 2^63 - 1 without commas |
| PrintOutput.PoolPrint.SPrint | src/gnu-efi-3.0.18/lib/print.c:313-352 | the string becomes the first maxlen characters of the old string followed by the chunk, and is terminated |
| PrintOutput.PoolPrint.GrowAndPrint | src/gnu-efi-3.0.18/lib/print.c:355-397 | in a string of the pool nothing is cut off: it is replaced by a longer one when it has to be |
| PrintOutput.PrintState.Flush | src/gnu-efi-3.0.18/lib/print.c:902-915 | handing the chunk on changes nothing about what has been sent, and empties the buffer |
| PrintOutput.PrintState.Store | src/gnu-efi-3.0.18/lib/print.c:946-953 | the character is sent whether or not it fills the buffer |
| PrintOutput.PrintState.PutC | src/gnu-efi-3.0.18/lib/print.c:934-954 | what has been sent stays the expansion of what has been put, a newline bringing a return with it |
| PrintOutput.ContractedExpanded | src/gnu-efi-3.0.18/lib/print.c:934-954 | taking out the return in front of each newline gives the text back |
| PrintOutput.ReturnBeforeNewline | src/gnu-efi-3.0.18/lib/print.c:939-944 | every newline that is sent has a return in front of it |
| PrintOutput.ExpandedLength | src/gnu-efi-3.0.18/lib/print.c:934-954 | exactly one character is added for each newline |
| PrintOutput.PrintState.PutItem | src/gnu-efi-3.0.18/lib/print.c:971-1029 | an item is put as its layout: blanks, padding, text and blanks |
| PrintOutput.Item.Measure | src/gnu-efi-3.0.18/lib/print.c:982-1006 | the widths that PITEM works out are those of the layout |
| PrintOutput.LayoutFillsTheField | src/gnu-efi-3.0.18/lib/print.c:971-1029 | the layout has the width of the field, or the item's own if that is larger, with the text, cut to the field, at the right or left end |
| PrintOutput.LayoutCharacters | src/gnu-efi-3.0.18/lib/print.c:971-1029 | every character of the layout: the text at the end of the item, the item's own padding in front of it up to the item's width, blanks elsewhere |
| PrintOutput.TruncatedIsLongest | src/gnu-efi-3.0.18/lib/print.c:334-345 | what is kept is the longest prefix that fits |
| PrintOutput.PrintToString | src/gnu-efi-3.0.18/lib/print.c:423-463 | the string ends as the first maxlen characters of the text with every newline expanded, however the 199-character chunks fall; the count is that of the whole text |
| PrintOutput.PrintToPool | src/gnu-efi-3.0.18/lib/print.c:503-532 | the pool string is the whole expanded text |
| Streams.EfiFile.Read | src/lfile.cpp:15-21 | the contract of a read: the next bytes of the file, at least one unless it is at its end |
| Streams.EfiFile.Write | src/lfile.cpp:43-45 | the contract of a write: the bytes replace what stood there or extend the file |
| ByteBuffers.OverwriteAt | src/lfile.cpp:43-45 | the bytes written stand where they were put and all others are as they were |
| Streams.LReader.ReadBuffer | src/lfile.cpp:4-34 | a refill loses nothing of what is still to be read, and fails exactly when nothing is |
| Streams.LReader.Current | src/lreader.hpp:44-60 | looking at the next byte consumes nothing; before the end it is the first byte not yet consumed |
| Streams.LReader.Next | src/lreader.hpp:62-86 | consumes one byte, or fetches the first one; the end is reported exactly when nothing is left; the mutual recursion with Current ends |
| Streams.LReader.Read | src/lreader.hpp:88-99 | delivers the next bytes, as many as asked for or as there are, except that a reader that has fetched nothing yet claims one byte when there is none |
| Streams.LReader.ScanLine | src/lreader.hpp:104-114 | the text before the next line feed is delivered and the line feed consumed |
| Streams.LReader.ReadLine | src/lreader.hpp:101-123 | delivers the first line of what is left, terminated, and stands behind it: the text up to LF, CR LF or the end of the file, of which exactly one CR at the end is dropped |
| Streams.FirstLineIsUnique | src/lreader.hpp:101-123 | a text without LF in front of LF, CR LF, a last CR or the end of the file is what is read, whatever follows |
| Streams.LReader.Reset | src/lreader.hpp:30-34 | drops what was read ahead, unless the end has been seen |
| Streams.LWriter.WriteByte | src/lwriter.hpp:35-41 | the file as it will be has the byte at the writer's place, whether or not the buffer had to be written first |
| Streams.LWriter.Write | src/lwriter.hpp:49-53 | the same for a text, each character cut to a byte |
| Streams.LWriter.Flush | src/lwriter.hpp:25-29 | the file becomes the one it was going to be |
| Streams.LFile.SetPosition | src/lfile.hpp:161-177 | the pending bytes reach the file before it moves, and the reader forgets what it read ahead |
| Streams.CopyByte | main.cpp:612-616 | one pass moves one byte from the reader to the writer's file |
| Streams.Copy | main.cpp:610-618 | for every way the device cuts its reads, the source file ends up over the beginning of the target |
| Streams.CopyIsIdentical | main.cpp:608-618 | the target is then identical to the source iff it was no longer than the source |
| Streams.FindEnd | main.cpp:706-714 | reading to the end counts the bytes of the file |
| Streams.AddLine | main.cpp:704-724 | the file is what it was, followed by the line and CR LF |
| Streams.FirstLine | src/lreader.hpp:101-123 | the first line of an added text is that text, even if it is empty or contains CR |
| Streams.ReadBack | src/lreader.hpp:101-123 | from a primed reader over added lines, as many ReadLine calls give exactly the lines and leave the reader at its end |
| Streams.AppendAndReadBack | main.cpp:704-724 | adding lines to an empty file and reading as many lines gives the same lines and reaches the end |
| Tasks.WithoutAt | src/ltask.hpp:45-62 | taking a task out of a duplicate-free queue is removing its place, the others keeping their order |
| Tasks.TaskSystem.NewTask | src/ltask.hpp:20-24 | a new task is in no list |
| Tasks.TaskSystem.IsRunning | src/ltask.hpp:29-31 | the test on the links holds iff the task is in the queue |
| Tasks.TaskSystem.Enqueue | src/ltask.hpp:33-43 | the list stays a well-formed doubly linked list, of the task followed by the old queue |
| Tasks.TaskSystem.Dequeue | src/ltask.hpp:45-62 | the list stays well formed, of the old queue without the task, be it at the head, in the middle, at the tail or absent |
| Tasks.TaskSystem.AddTask | src/ltask.cpp:34-38 | a queued task changes nothing, any other goes to the front |
| Tasks.TaskSystem.Select | src/ltask.cpp:19-23 | the scan selects the earliest task of least priority within the window |
| Tasks.SelectedIsUnique | src/ltask.cpp:19-23 | there is only one such task |
| Tasks.TaskSystem.DoEvents | src/ltask.cpp:15-32 | runs the selected task and removes exactly it, whatever tasks it adds while it runs |
| Tasks.StepRemovesOne | src/ltask.cpp:25-31 | a call leaves the new tasks in front of the old ones, without the one that ran |
| Tasks.LastAddedIsFirst | src/ltask.cpp:34-38 | new tasks stand in front of the old ones with the last one added first |
| Tasks.DrainRunsEachOnce | src/ltask.cpp:15-32 | with none added, n calls run each of n tasks exactly once and empty the queue |
| Tasks.OutsideWindowWaits | src/ltask.cpp:15-32 | a task at index p outside a window of w is not run by the next p - w + 1 calls, whatever is added; with the window of 4, by the next p - 3 |
| Tasks.MostUrgentWaitsNoLonger | src/ltask.cpp:15-32 | that is as long as it waits: with none added, the task of strictly least priority is run by the first call that has it in its window |
| Scaling.Adjoint | src/lscreen.hpp:152 | the rounded-up target of a column and the rounded-down source of a target column are adjoint |
| Scaling.Onto | src/lscreen.hpp:152 | at ratios up to 100 the column that a target column shows lands on it |
| Scaling.Rounded | src/lscreen.hpp:142-165 | the target is v * ratio / 100 rounded up, the source 100 * x / ratio rounded down |
| Screens.SameOrSpilled | src/lscreen.hpp:128-132 | the only pixel besides its own that a write can hit is the first of the next row, from one column past the edge |
| Screens.WriteMissesPast | src/lscreen.hpp:157-163 | no write, spilled or not, reaches a pixel that already has its final value |
| Screens.WriteStep | src/lscreen.hpp:160 | each copy keeps all pixels passed so far right, and one more |
| Screens.LScreen.SetBuffer | src/lscreen.hpp:128-132 | only the linear index is checked: the pixel it names is written, or none |
| Screens.LScreen.CopyCell | src/lscreen.hpp:159-161 | one turn of the copy loops is one such write, left out for an empty pixel of a masked image |
| Screens.LScreen.Scale | src/lscreen.hpp:142-165 | for ratios 1 to 100 it stays in bounds and pixel (x, y) is source pixel (floor(100x / ratio), floor(100y / ratio)); in a masked image wherever that one is not empty |
| Screens.FullSizeIsIdentity | src/lscreen.hpp:142-165 | at ratio 100 an unmasked image is copied as it is |
| Screens.LScreen.Draw | src/lscreen.hpp:175-181 | at a place where its rows fit, the picture stands there and everything else is as before |
| Fonts.Enclose | src/lfont.hpp:80-100 | the box contains all ink and is touched by ink on all four sides |
| StripCutting.BoxIsUnique | src/lfont.hpp:80-100 | there is only one such box |
| StripCutting.LeastWidth | src/lfont.hpp:102-103 | the least width is the greatest distance that is not more than a third of the average width |
| StripCutting.StripSpans | src/lfont.hpp:102-138 | the scan with the width computed from the box gives exactly the glyphs that end at the first blank column more than a third of the average width from their start |
| Fonts.ScanColumn | src/lfont.hpp:117-123 | the scan of the rows of the box tells whether the column has ink |
| Fonts.ScanGlyph | src/lfont.hpp:111-138 | a glyph is always found: from the next column with ink to the first blank one more than minCharWidth further on, or the right edge |
| Fonts.CopyGlyph | src/lfont.hpp:145-154 | the glyph's bitmap is new and shows the cut-out part of the strip, with the background masked |
| StripCutting.SpansAreApart | src/lfont.hpp:111-138 | the glyphs' column ranges are not empty, increase, and have a column between any two of them |
| StripCutting.InkIsCovered | src/lfont.hpp:111-138 | a column with ink is in a range iff the scan has passed it |
| StripCutting.AllInkIsCovered | src/lfont.hpp:111-138 | all ink is covered iff the last range ends at the right edge of the ink |
| StripCutting.ScanIsUnique | src/lfont.hpp:111-138 | the ink decides the ranges |
| StripCutting.PastedSoFar | src/lfont.hpp:145-154 | after k glyphs have been drawn back on an empty canvas it shows the strip left of where the scan stood, and background beyond |
| StripCutting.PastingRestores | src/lfont.hpp:145-154 | drawing all glyphs back at their offsets restores every pixel of the strip iff the scan reached the right edge |
| Fonts.LastStoredOneMore | src/lfont.hpp:164 | storing a glyph changes what is found for its character and for no other |
| Fonts.LFont.AddLow | src/lfont.hpp:156-158 | a new first-level node hides and reveals nothing |
| Fonts.LFont.AddHigh | src/lfont.hpp:160-162 | a new second-level node hides and reveals nothing |
| Fonts.LFont.SetHigh | src/lfont.hpp:164 | the trie keeps its shape, and a look-up finds the bitmap for this character and for every other what it found before |
| Fonts.LFont.Keep | src/lfont.hpp:156-166 | the trie still agrees with the list of all glyphs stored, now one longer, and the font is at least as high as the glyph |
| Fonts.LFont.LoadGlyphs | src/lfont.hpp:111-168 | the first characters get the glyphs of the scan in order, until the characters or the ink run out |
| Fonts.LFont.LoadBitmap | src/lfont.hpp:61-169 | what is added to the glyphs stored before is a strip: the tight box of its ink, the glyphs' column ranges, and the cut-out pictures for the first characters; a blank column ends a glyph iff it is more than a third of the average width from its start; earlier glyphs stay what they were |
| Fonts.LFont.LoadStrips | src/lfont.hpp:42-58 | loading one strip after the other adds the characters and the pictures of all of them in order |
| Fonts.OpenFont | src/lfont.hpp:35-59 | a new font holds exactly the glyphs of its strips, so a look-up finds the last glyph that any of them gave the character |
| Fonts.LFont.GetCharBitmap | src/lfont.hpp:171-181 | after any series of loads: null iff no glyph was stored for the character, else a bitmap that shows the last one stored for it |
| Tours.CostBounds | src/packages/AntTSP/AntTSP.cpp:110-112 | a tour of two or more towns costs at least 1, and the total is bounded |
| Tours.CostFromFront | src/packages/AntTSP/AntTSP.cpp:84-88 | the cost is the sum of the ways between neighbours in the direction of the tour |
| Tours.Visits | src/packages/AntTSP/AntTSP.cpp:52-60 | a path without repetition visits every town iff it has n towns |
| AntColony.Colony.Random | src/packages/AntTSP/AntTSP.cpp:16-20 | with 32-bit wrap-around and truncating remainder the draw is always a town |
| AntColony.SeedIsLinear | src/packages/AntTSP/AntTSP.cpp:17 | the next state is 2131 times the state plus 7, modulo 2^32 |
| AntColony.DrawOfPower | src/packages/AntTSP/AntTSP.cpp:19 | the town drawn is congruent modulo n to the 32-bit number that the fourth power of the state wraps to |
| AntColony.Ant.Next | src/packages/AntTSP/AntTSP.cpp:48-61 | the first free town with the most pheromone for its distance: compared crosswise, trail[s][v] * len[s][t] <= trail[s][t] * len[s][v] for every free v; -1 iff every town is on the path |
| Trails.PullOrder | src/packages/AntTSP/AntTSP.cpp:53-59 | the products the program compares are in that order |
| Trails.NearestComesNext | src/packages/AntTSP/AntTSP.cpp:48-61 | where the pheromone is equal the nearest town comes next, the first of several |
| AntColony.Ant.Extend | src/packages/AntTSP/AntTSP.cpp:130-134 | the path stays one that goes to the favourite town every time; it grows iff a town is left |
| Trails.GreedyIsUnique | src/packages/AntTSP/AntTSP.cpp:48-61 | the start and the pheromone decide the path |
| AntColony.Ant.Reuse | src/packages/AntTSP/AntTSP.cpp:62-72 | whatever the last round left, the path is the start alone and only the start is taken |
| AntColony.Ant.StepTo | src/packages/AntTSP/AntTSP.cpp:84-88 | the path stays free of repetition, the taken towns are those on it, and the length is its cost |
| AntColony.Ant.Step | src/packages/AntTSP/AntTSP.cpp:76-83 | the pheromone is evaporated and marked exactly on the edges of the tour, once each, and stays positive |
| Trails.MarkIsShared | src/packages/AntTSP/AntTSP.cpp:81 | half of the pheromone stays, 100 is spread over the tour, and a cheaper tour leaves more |
| Trails.WaysAreMarked | src/packages/AntTSP/AntTSP.cpp:76-83 | every way of the tour is marked in the direction it is gone and not in the other |
| AntColony.Colony.MarkEdge | src/packages/AntTSP/AntTSP.cpp:79-81 | one turn marks the next edge of the tour, which is none of those marked before |
| AntColony.Sweep | src/packages/AntTSP/AntTSP.cpp:127-136 | every ant goes one town further, to its favourite, or none can |
| AntColony.BuildTours | src/packages/AntTSP/AntTSP.cpp:125-137 | the inner loop ends after n - 1 extensions with every path a permutation of the towns that follows the pheromone of the beginning of the round |
| AntColony.CompleteTours | src/packages/AntTSP/AntTSP.cpp:125-137 | the tours are the ants' paths: complete, from the ants' starts, by the pheromone of the beginning of the round |
| AntColony.FinishOne | src/packages/AntTSP/AntTSP.cpp:139-151 | the record is still the first of the tours built than which none is cheaper; the tour is marked by its cost |
| AntColony.LeaveMarks | src/packages/AntTSP/AntTSP.cpp:138-152 | the tours of the round are marked one after the other, and the record covers them |
| Trails.FirstMarksFirst | src/packages/AntTSP/AntTSP.cpp:138-139 | the first ant marks first, and the others on what it leaves |
| AntColony.Round | src/packages/AntTSP/AntTSP.cpp:124-153 | the ants' tours make a round from the pheromone before to the pheromone after, and the record covers all of them |
| Trails.RoundIsUnique | src/packages/AntTSP/AntTSP.cpp:124-153 | the starts and the pheromone before decide the tours and the pheromone after |
| AntColony.PlaceAnts | src/packages/AntTSP/AntTSP.cpp:116-117 | the ants start at the first m numbers of the generator |
| AntColony.Search | src/packages/AntTSP/AntTSP.cpp:91-153 | exactly nc rounds of m tours are made, each on the pheromone that the one before left; the record is a complete tour with its cost, the first of those of the rounds than which none is cheaper; without a round there is none |
| Trails.FirstToursAreNearest | src/packages/AntTSP/AntTSP.cpp:106-137 | in the first round every ant goes to the nearest town that is left every time |
| Trails.RunIsUnique | src/packages/AntTSP/AntTSP.cpp:91-153 | the lengths and the starts decide all tours of all rounds and the pheromone after each |

## Left out

- The whole of the shell, the explorer, sockets and TCP, partitions, protocol installation, console input and other firmware calls: nothing there to prove without a model of the firmware.
- Box, the ELF relocators, GUID tables and the sample applications: fixed-size or easy next to the above.
- Failed allocations and failed device calls: allocation succeeds, a read or write does not fail.
- Image sizes beyond 32 bits: W * H and W * Ratio do not wrap; a strip is narrower than 2^32 - 1 columns.
- Doubles: `real` has no rounding, so sums and quotients that lose digits in the ants' program are exact here.
- Colony arrays: an ant's path and flags are sequences in its fields, not fixed-size arrays; indices stay below 400 by the invariant.
- The diagonal of the ants' distances, whose reciprocal the source computes and never reads: any value.
- Two towns at distance zero: excluded, because the source divides by the distance.
- AntColony.Search: no towns, where the source divides by zero, and no ants with rounds to go, where it loops forever, are excluded.
- Pyramids.Solver.Query: at most 2^31 - 1 queries, after which the epoch number would wrap; lines are shorter than the source's 400 characters.
- MetaMatcher.MetaMatch: a pattern with an unclosed class is excluded, because the source then reads past the end of the pattern.
- CheckCrc and SetCrc, which pass the size found in the header on to the members modelled here.
- DevicePaths.AppendDevicePath: a pair of paths is excluded if what is written does not fit the buffer, where the source writes behind it.
- DevicePaths.AppendDevicePathNode: the same, and the node is not an end node.
- The `ASSERT`s on device paths are preconditions where they concern an unpacked path next to a missing one; the one behind the loop of `DevicePathInstance` is passed over, as in a release build.
- LibDuplicateDevicePathInstance: as written it does not produce the node sequence its comment describes.
- DevicePathUnpacking.UnpackDevicePath: MIN_ALIGNMENT_SIZE is that of the 64-bit targets, 8.
- The text formatters of device paths, FloatToString, TimeToString, DumpHex and the dispatcher on `%` directives in `_Print`: floating point, or many easy cases. PITEM is modelled for an item that has been set up.
- PrintOutput.PrintToString: a string with room for no character but its terminator is excluded, because the source then terminates nothing; so is a format with directives.
- Text attributes of the print state: they do not change the text.
- Streams.LReader.Current: past the last byte the source falls through to a stale byte; its value is left open. Text mode, which tests the buffer before it is filled, is not modelled.
- Streams.LReader.ReadLine: the reader has been primed by a call of Next, as the source's callers do, and has something left; excluded are a bare LF, where the source looks one cell in front of the line buffer, and a line that does not fit its buffer, which the source does not check.
- Streams.LFile.SetPosition: a position past the end of the file.
- Tasks.TaskSystem.DoEvents: a running task is a list of AddTask calls, and `delete` is not modelled; a task that frees or dequeues others itself is excluded.
- Screens.LScreen.Scale: ratios above 100 leave holes, and the pixels of a masked image whose source is empty may show a spilled one; nothing is stated about these.
- Screens.LScreen.Draw: places where a row does not fit, and negative ones.
- Fonts.LFont.LoadBitmap: reading the image file and the font's index file; a strip without ink and an empty character set are excluded, where the source divides by zero or allocates a negative size. Drawing text.
