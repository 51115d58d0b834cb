# AndroidWork: codecs, compositors and machines, in Dafny

The repository draws animated pictures and looks after native code on Android.  This project models the parts of it
that compute something hard, and proves what they are for:

* **The GIF codec** (giflib's `egif_lib.c`, `dgif_lib.c`, `gif_hash.c`).  `Lzw` is a reference decoder after Appendix F
  of GIF89a: it maps bits to pixels with a dictionary of strings.  The encoder (`GifEncoder`, `EncoderTable`,
  `GifOutput`, `GifHash`) and the decoder (`GifDecoder`, `DecoderTable`, `GifInput`) are classes with the fields of the
  C structures, each proved against the reference decoder, the decoder for every input, well-formed or not.
  `LzwRoundTrip` puts them together.  `GifGrammar` says which byte strings are GIF files and what they describe;
  `GifWriter` (EGifSpew) writes such a string, `GifReader` (DGifSlurp) reads any of them, and `GifRoundTrip` concludes.
* **The second GIF encoder** (`Gifflen.cpp`): `HashTree`, `GifflenOutput` and `Gifflen`, against the same reference
  decoder and the same table invariant; `GreedyParse` says how it, and giflib's encoder, cut an image into codes.
* **The compositors** (`FrameSequence_gif.cpp`, `FrameSequence_webp.cpp`): `GifAnimation` and `WebpAnimation`.  `Shown`
  says what a pixel is if every frame is drawn, `Before` what it is before a frame; `DrawFrame`, with all its
  shortcuts, leads to the same.  For GIF, `Drawn` says what it leads to in any case, pixel by pixel.
* **The relocator** (`relocate.c`, ARM mode): `Arm` gives meaning to instructions (after the ARM ARM, DDI 0406C), with
  shifts and all other instructions left to a parameter, which looks at the program counter only where the encoding
  names it as an operand; `Relocate` shows that the trampoline simulates the original.
* **The hook registry** (`inlineHook.c`): `HookRegistry`, with code memory as an array of bytes; `Arm` says what a
  hook does.
* **The unwinder and its index** (`exidxstep.cpp`): `Unwind` and `ExidxSearch`.
* **The quantizer** (`quantize.c`): `Quantize`, with pointers between colours as indices.
* **The text converter** (`utf.cpp`): `Utf`.

Ghost fields of a class say what its state stands for: the decoder state that an encoder has in mind, the list of
colours of a cube, the code before any hook.

Reading and writing are modelled by the bytes still to be read and those written so far; the canvas by an array of two
dimensions that may be wider than the picture, as a stride is; memory of the target by maps and arrays of bytes.

Where the code does not do what it is for in all cases, the project keeps the code as it is, gives an input that shows
it, and proves when the code does meet its purpose:

* `Gifflen.Gifflen.Compress`: bits at the end of the stream are lost when they do not fill a byte.  A decoder then
  misses the pixels of the last code, exactly if `GreedyParse.Spoiled` holds of the image, which takes at most four
  colours (`Gifflen.SecondPixelLost`: a picture of two pixels).
* `Utf.TextKept`: the unit after a high surrogate is taken for a low one unseen (`Utf.UnpairedGarbled`).
* `ExidxSearch.SearchRight`: the comparison with the next key is not strict (`ExidxSearch.SearchOffByOne`), and the
  last entry serves as the end of the one before, so it is never found itself.  A key below the first one may even give
  the address in front of the table (`ExidxSearch.SearchBelow`).
* `Relocate.Simulates`: instructions that are not classified are copied even if they read the program counter
  (`Relocate.PcOperandBreaks`).
* `Relocate.AdrMovedRight`: the offset of an ADR is taken as it stands, though the architecture rotates it
  (`Relocate.RotatedAdrBreaks`).
* `GifAnimation.ShownAsStandard`: restoring to previous brings back the canvas of the last frame that was not cleared,
  or nothing, and a covered frame is not disposed of, where section 23 of GIF89a has the canvas before the frame, or the
  background (`GifAnimation.ShownUnlikeStandard`, `GifAnimation.CoverWithHole`, `GifAnimation.NothingToRestore`).
* `GifAnimation.PathIndependence`: what is shown does not depend on the frames drawn on the way, if and only if frames
  let nothing through that was left over from skipped frames or an earlier run (`GifAnimation.CoverWithHole`,
  `GifAnimation.NothingToRestore` and `GifAnimation.StaleBuffer`: files where it does).

`dafny verify dfyconfig.toml` checks everything.

## Model

| member | source | states |
|---|---|---|
| LzwRoundTrip.RoundTrip | libframesequence/giflib/src/egif_lib.c:833-961 | for every raster of at least one pixel and every way of cutting it into lines, on the writing and on the reading side, decompressing what was compressed gives exactly the pixels masked to the code size |
| LzwRoundTrip.Compress | libframesequence/giflib/src/egif_lib.c:445-470 | putting the lines one after the other, however they are cut, leaves sub-blocks that the reference decoder turns into the whole masked raster, followed by the end code |
| LzwRoundTrip.Decompress | libframesequence/giflib/src/dgif_lib.c:442-476 | getting lines, however they are cut, never fails and delivers exactly the pixels of any image that the reference decoder finds in the input |
| GifRoundTrip.RoundTrip | libframesequence/giflib/src/dgif_lib.c:1074-1190 | reading the file that EGifSpew wrote gives back the screen, colour maps, image descriptors, rasters and extension lists of all images that were not deleted |
| GifRoundTrip.KeptWhole | libframesequence/giflib/src/egif_lib.c:464-468 | an image whose pixels fit its colour map comes back unchanged, but for the sort flag of a colour map of its own, which the format of the image descriptor has no place for in the code |
| GifEncoder.EGif.SetupCompress | libframesequence/giflib/src/egif_lib.c:834-872 | the code size byte, never below 2, then an empty table on both sides: a decoder that has read the clear code is in its start state |
| GifEncoder.EGif.CompressOutput | libframesequence/giflib/src/egif_lib.c:970-1009 | one code at the current width, which grows exactly when the running code has reached MaxCode1; or, to flush, the framed data with less than a byte of padding |
| GifEncoder.EGif.WriteCode | libframesequence/giflib/src/egif_lib.c:1002-1006 | a legal code is output at the width a decoder expects, and takes that decoder to its next state; its string is what has been written more |
| GifEncoder.EGif.WriteClear | libframesequence/giflib/src/egif_lib.c:922-932 | after a clear code in mid-stream the encoder and the decoder start again at the same width |
| GifEncoder.EGif.WriteAndDefine | libframesequence/giflib/src/egif_lib.c:909-936 | writing the prefix code and defining the next one, or clearing a full table, keeps the agreement with the decoder and with the greedy parse, and leaves just the new pixel pending |
| GifEncoder.EGif.CompressPixel | libframesequence/giflib/src/egif_lib.c:898-939 | each turn of the loop takes one more pixel into what has been written or is pending, and keeps both agreements; so a hit in the table is followed, and nothing is written for it |
| GifEncoder.EGif.CompressLine | libframesequence/giflib/src/egif_lib.c:881-961 | any line extends the pixels compressed so far by exactly that line; when no pixels are left, the data decodes to all of them and ends in the end code, and its codes, each at the width a decoder expects, are those of the greedy parse of all pixels |
| GifEncoder.EGif.FinishImage | libframesequence/giflib/src/egif_lib.c:944-958 | the pending code, the end code and the flush make a complete stream of all pixels so far, of the codes of their greedy parse |
| GifEncoder.FollowsHit | libframesequence/giflib/src/egif_lib.c:904-908 | a pair that is in the table: nothing is written, and the pending string is still the longest one that has a code |
| GifEncoder.FollowsMiss | libframesequence/giflib/src/egif_lib.c:909-935 | a pair that is not: the pending code is written, and the pair gets the next code, or, when that is 4095, a clear code follows and the table is empty |
| GifEncoder.LastCode | libframesequence/giflib/src/egif_lib.c:922 | how many codes a table has before it is cleared |
| GifEncoder.EGif.PutLine | libframesequence/giflib/src/egif_lib.c:445-470 | a line that is too long is refused and changes nothing; any other is masked in place, to the bits of a pixel and nowhere else, and compressed |
| GifEncoder.MaskedInRange | libframesequence/giflib/src/egif_lib.c:464-468 | masking does not change pixels that are in range |
| GifEncoder.FirstRoom | libframesequence/giflib/src/egif_lib.c:850 | why the code size is at least 2: the width of the first clear code leaves room for the end code and one more |
| GifEncoder.KeyInRange | libframesequence/giflib/src/egif_lib.c:903 | no key that is inserted is the empty marker, and the table never fills, because codes stay below 4095 |
| EncoderTable.CanWrite | libframesequence/giflib/src/egif_lib.c:913 | the pending code is always known to the decoder or the one it is about to define, means the same string there, and fits the width |
| EncoderTable.WidthFits | libframesequence/giflib/src/egif_lib.c:922-926 | as long as codes stay within 4095, the next code, and so the end code, fits the width in force, and that is at most 12 |
| EncoderTable.Follow | libframesequence/giflib/src/egif_lib.c:904-908 | following a hit in the table keeps the pending string and its code in step |
| EncoderTable.Extend | libframesequence/giflib/src/egif_lib.c:909-935 | after the prefix code has been written, giving the pair the next code leaves encoder and decoder agreeing, the decoder one entry behind |
| EncoderTable.DecoderCatchesUp | libframesequence/giflib/src/dgif_lib.c:899-913 | having read the pending code the decoder knows just the strings that the encoder knew when it wrote it |
| EncoderTable.NextWidth | libframesequence/giflib/src/egif_lib.c:1002-1006 | the reference decoder's width grows by one exactly when the encoder's guard on RunningCode holds |
| EncoderTable.LearnWidth | libframesequence/giflib/src/egif_lib.c:1004 | the same for the decoder's next state: the lock-step of the widths |
| GifOutput.GifOutput.BufferedOutput | libframesequence/giflib/src/egif_lib.c:1018-1048 | a byte is appended to the data, whatever blocks that fills; a flush leaves the framed data behind what was written before, ended by exactly one empty block |
| GifOutput.GifOutput.Put | libframesequence/giflib/src/egif_lib.c:989-1000 | the bits of a code are appended to the bit stream, least significant first |
| GifOutput.GifOutput.Flush | libframesequence/giflib/src/egif_lib.c:976-988 | all bits are written, padded to a byte, and the data is framed |
| ShiftRegister.ShiftIn | libframesequence/giflib/src/egif_lib.c:990-991 | or-ing a shifted code onto the shift register appends its bits, so none of the waiting bits is disturbed |
| ShiftRegister.ShiftOut | libframesequence/giflib/src/egif_lib.c:992-999 | moving the low byte out loses no bit |
| SubBlocks.FrameData | libframesequence/giflib/src/dgif_lib.c:1042-1072 | reading the sub-blocks of framed data gives the data back, and what follows the one empty block is what was there |
| SubBlocks.FrameSplit | libframesequence/giflib/src/egif_lib.c:1036-1043 | blocks of 255 bytes written as they fill are the framing of all the data |
| Bits.OrShifted | libframesequence/giflib/src/egif_lib.c:990 | or is addition as long as the shifted number starts above the other one |
| Bits.OrXorBits | libframesequence/giflib/src/gif_hash.c:115-118 | or and exclusive or, bit by bit |
| Bits.StackBits | libframesequence/giflib/src/dgif_lib.c:1012-1014 | the bits of two numbers stacked by shift and or are the bits of one and then of the other |
| Bits.UnstackBits | libframesequence/giflib/src/dgif_lib.c:1016-1019 | mask and shift take such a number apart again |
| GifHash.GifHashTable.Clear | libframesequence/giflib/src/gif_hash.c:54-57 | a cleared table stores the empty map |
| GifHash.GifHashTable.Insert | libframesequence/giflib/src/gif_hash.c:63-80 | probing ends, and the table then stores the map with the new key |
| GifHash.GifHashTable.Exists | libframesequence/giflib/src/gif_hash.c:86-105 | probing ends, and the answer is the map's: the code of the key, or -1 |
| GifHash.NextProbe | libframesequence/giflib/src/gif_hash.c:73-78 | while less than 8192 slots are used, a run of occupied slots leaves one more to probe |
| GifHash.Met | libframesequence/giflib/src/gif_hash.c:96-102 | a stored key sits before the first empty slot of its probe path |
| GifHash.StoreStays | libframesequence/giflib/src/gif_hash.c:79 | filling the first empty slot of a probe path disturbs no other key |
| GifHash.PackUnpack | libframesequence/giflib/src/gif_hash.c:79 | key and code packed into 32 bits come apart again, and are not the empty marker |
| GifHash.KeyItemBits | libframesequence/giflib/src/gif_hash.c:115-118 | probing begins at the slot whose bits are the exclusive ors of two bits of the key, 12 apart |
| Lzw.PlayReads | libframesequence/giflib/src/egif_lib.c:881-961 | what an encoder told code by code a decoder reads, whatever bits come after it |
| Lzw.PlayEnds | libframesequence/giflib/src/egif_lib.c:944-958 | a stream that goes on with the end code means the pixels told before it |
| Lzw.FitIsLeast | libframesequence/giflib/src/dgif_lib.c:1021-1031 | the reference width is the least, up to 12, in which the codes counted so far fit |
| GifInput.GifInput.BufferedInput | libframesequence/giflib/src/dgif_lib.c:1042-1072 | the next byte of the data, from the buffer or the next block; failure exactly when the data is at its end |
| GifInput.GifInput.GetCodeNext | libframesequence/giflib/src/dgif_lib.c:723-751 | one block further towards the end of the image data, or the empty block itself |
| GifInput.GifInput.SkipToEnd | libframesequence/giflib/src/dgif_lib.c:463-472 | skipping ends, and succeeds exactly if there is an empty block; the input is then right behind it |
| GifInput.GifInput.Take | libframesequence/giflib/src/dgif_lib.c:1007-1019 | the next bits of the stream, as a number, for any input; failure exactly when there are too few |
| GifInput.GifInput.Fill | libframesequence/giflib/src/dgif_lib.c:1007-1015 | the shift register takes bytes until it holds the code, and never more than 19 bits |
| GifDecoder.DGif.DecompressInput | libframesequence/giflib/src/dgif_lib.c:988-1033 | the code at the current width; count and width go up as the code says, the width never beyond 12 |
| GifDecoder.DGif.GetPrefixChar | libframesequence/giflib/src/dgif_lib.c:931-942 | ends for any table, cyclic ones included; for a code with a string it is the first pixel of that string |
| GifDecoder.DGif.TraceUnknown | libframesequence/giflib/src/dgif_lib.c:858-875 | a code without an entry is only legal as the one about to be defined: its string is that of the code before and its own first pixel |
| GifDecoder.DGif.Walk | libframesequence/giflib/src/dgif_lib.c:883-887 | following the prefixes stops before the stack overflows, and puts the rest of the string on the stack |
| GifDecoder.DGif.Trace | libframesequence/giflib/src/dgif_lib.c:854-893 | a legal code leaves its whole string on the stack, to be popped first pixel first; for any other the stack stays within bounds |
| GifDecoder.DGif.PopStack | libframesequence/giflib/src/dgif_lib.c:822-826 | pixels left over from one line begin the next one |
| GifDecoder.DGif.FillEntry | libframesequence/giflib/src/dgif_lib.c:899-913 | the entry written is that of the code the reference decoder learns; all other entries still hold their strings |
| GifDecoder.DGif.OutputCode | libframesequence/giflib/src/dgif_lib.c:846-915 | a legal code outputs the reference decoder's string, in part perhaps on the stack, and leads to its next state |
| GifDecoder.DGif.ReadCode | libframesequence/giflib/src/dgif_lib.c:829-915 | every turn of the loop uses up input bits, and does what the reference decoder does as long as that reads legal codes |
| GifDecoder.DGif.DecompressLine | libframesequence/giflib/src/dgif_lib.c:802-922 | for any input at all it ends within the bounds of all arrays; it delivers the reference decoder's next pixels, and fails if there are not enough of them |
| GifDecoder.DGif.GetLine | libframesequence/giflib/src/dgif_lib.c:442-476 | the same for a line, refusing one that is longer than the rest of the image; after the last pixel the input stands behind the image data |
| GifDecoder.DGif.SetupDecompress | libframesequence/giflib/src/dgif_lib.c:757-793 | fails exactly on a missing code size or one above 8; otherwise nothing of the image before is left |
| DecoderTable.WidthFollowsCount | libframesequence/giflib/src/dgif_lib.c:1021-1031 | counting codes up to 4097 and comparing with > keeps the decoder's width equal to the reference width, which the encoder keeps with >= |
| DecoderTable.LearnLink | libframesequence/giflib/src/dgif_lib.c:899-913 | the array entries written for a new code spell the string that the reference decoder learns |
| DecoderTable.UnknownIsComing | libframesequence/giflib/src/dgif_lib.c:861-864 | a legal code without an entry is the next one to be defined |
| DecoderTable.FitsStack | libframesequence/giflib/src/dgif_lib.c:883-891 | no string of a well-formed stream reaches the limit of the pixel stack |
| DecoderTable.TableFull | libframesequence/giflib/src/dgif_lib.c:1023-1025 | when the codes are used up the width is 12 and every code has its string |
| GifFormat.RowsOnce | libframesequence/giflib/src/egif_lib.c:1117-1142 | the four interlace passes, or the plain one, visit every row of the image exactly once, whatever its height |
| GifFormat.OrderIsPermutation | libframesequence/giflib/src/dgif_lib.c:1124-1135 | so the order of the rows is a permutation of them |
| GifFormat.RowsDetermine | libframesequence/giflib/src/dgif_lib.c:1118-1140 | and the pixel stream determines the raster |
| GifFormat.RowAtPlace | libframesequence/giflib/src/dgif_lib.c:1124-1135 | the place of each row in the pixel stream, in closed form: in an interlaced image of height h a row r with r % 8 == 0 is at r / 8, one with r % 8 == 4 at (h + 7) / 8 + r / 8, and so on; in a plain one row r is at r |
| GifGrammar.PixelsInPlace | libframesequence/giflib/src/dgif_lib.c:1118-1140 | so the pixel in row r and column c of any image in a file is the one at its place, times the width, plus c, in the stream |
| GifFormat.PrintedColor | libframesequence/giflib/src/egif_lib.c:323-329 | the three bytes of a colour are read back as that colour |
| GifFormat.PrintWord | libframesequence/giflib/src/egif_lib.c:817-828 | a 16-bit word is read back from its two bytes |
| GifFormat.BitSizeLeast | libframesequence/giflib/src/gifalloc.c:20-29 | the size in bits is the least one that gives so many colours a number each, and 9 for more than 256 |
| GifGrammar.ExtensionsPrinted | libframesequence/giflib/src/egif_lib.c:1056-1078 | a list of extension sub-blocks, continuations included, is read back as the same list |
| GifGrammar.TablePrinted | libframesequence/giflib/src/egif_lib.c:394-408 | a colour table is read back, all but its sort flag |
| GifGrammar.HeadPrinted | libframesequence/giflib/src/egif_lib.c:380-392 | an image descriptor is read back |
| GifGrammar.HeaderBytes | libframesequence/giflib/src/dgif_lib.c:249-291 | the header of a file byte by byte: when there is one, what each field is, and where the rest begins |
| GifGrammar.HeadBytes | libframesequence/giflib/src/dgif_lib.c:353-396 | the same for an image descriptor |
| GifGrammar.TableBytes | libframesequence/giflib/src/dgif_lib.c:272-287 | the same for a colour table: three bytes for each colour, red first |
| GifGrammar.ExtensionOfOne | libframesequence/giflib/src/dgif_lib.c:1150-1172 | an extension of one sub-block byte by byte |
| GifGrammar.ExtensionOfTwo | libframesequence/giflib/src/dgif_lib.c:1162-1172 | an extension of two: the second one continues it |
| GifGrammar.BodyBytes | libframesequence/giflib/src/dgif_lib.c:296-330 | behind the extensions comes 0x2c and an image, or 0x3b and the end |
| GifWriter.ScreenFlagsRead | libframesequence/giflib/src/dgif_lib.c:260-265 | the four fields of the screen's flags are read back |
| GifWriter.ScreenPrinted | libframesequence/giflib/src/egif_lib.c:265-339 | the screen descriptor and the global colour map are read back |
| GifWriter.BodyPrinted | libframesequence/giflib/src/egif_lib.c:1094-1151 | everything between header and terminator is read back, record by record |
| GifWriter.GifWriter.PutScreenDesc | libframesequence/giflib/src/egif_lib.c:265-339 | the bytes of the header; fails exactly for a colour map whose size is not a power of two |
| GifWriter.GifWriter.SetVersion | libframesequence/giflib/src/egif_lib.c:194-231 | GIF89a is asked for exactly if it was set before or some extension has one of the codes 0xfe, 0xf9, 0x01 and 0xff |
| GifWriter.GifWriter.WriteExtensions | libframesequence/giflib/src/egif_lib.c:1056-1078 | the bytes of a list of extensions |
| GifWriter.GifWriter.PutImageDesc | libframesequence/giflib/src/egif_lib.c:358-439 | the descriptor, the colour map and the code size, the least one from 2 on that gives every colour of the map in force a code; fails exactly for an unfinished image, a colour map of a wrong size, or no colour map at all |
| GifWriter.CodeSizeLeast | libframesequence/giflib/src/egif_lib.c:840-850 | the code size is the least one from 2 on that gives every colour of the map in force a code; an image's own map comes before the screen's |
| GifWriter.MapSizes | libframesequence/giflib/src/gifalloc.c:44-48 | the colour maps that are not refused are those of 2, 4, 8 and so on up to 256 colours |
| GifWriter.GifWriter.PutRows | libframesequence/giflib/src/egif_lib.c:1117-1142 | the rows, interlaced or not, never fail and make one complete image, in whose stream every pixel is at its place in closed form |
| GifWriter.GifWriter.PutImage | libframesequence/giflib/src/egif_lib.c:1094-1142 | an image with its extensions, all written; fails exactly if its colour maps do not suit |
| GifWriter.GifWriter.Spew | libframesequence/giflib/src/egif_lib.c:1081-1154 | succeeds exactly if all colour maps suit, and the file then describes, by the grammar of the format, the images that are not deleted; it begins with GIF89a or GIF87a, the first exactly if the version asks for it |
| GifReader.GifReader.GetHeader | libframesequence/giflib/src/dgif_lib.c:205-228 | succeeds exactly on the header of the grammar, with the screen it describes |
| GifReader.GifReader.GetDesc | libframesequence/giflib/src/dgif_lib.c:340-395 | succeeds exactly on an image descriptor of the grammar, with the image it describes |
| GifReader.GifReader.GetTable | libframesequence/giflib/src/dgif_lib.c:264-290 | reads a colour table exactly when there is a whole one |
| GifReader.GifReader.GetRaster | libframesequence/giflib/src/dgif_lib.c:1118-1140 | the rows of an image of the grammar, interlaced or not, land where they belong; for any input the array has the size of the image; every pixel comes from its place in closed form |
| GifReader.GifReader.GetImage | libframesequence/giflib/src/dgif_lib.c:1096-1149 | an image of the grammar is added with its extensions; for any input at most one image is added, with a raster of its size and all extensions read so far, and on failure nothing changes |
| GifReader.GifReader.GetExtensionNext | libframesequence/giflib/src/dgif_lib.c:550-571 | the next sub-block, or the end of the extension |
| GifReader.GifReader.GetExtension | libframesequence/giflib/src/dgif_lib.c:1151-1173 | all sub-blocks of an extension, the later ones as continuations; fails exactly on one that is cut short |
| GifReader.GifReader.Slurp | libframesequence/giflib/src/dgif_lib.c:1080-1190 | any file of the grammar is read, and gives the images and extensions that it describes; on any other input reading ends as well, and if it succeeds there is an image, and every image has as many pixels as its size says |
| GifFormat.BitSizeOfPower | libframesequence/giflib/src/gifalloc.c:20-29 | the size in bits of a colour map whose size is a power of two |
| GifAnimation.FrameSequence.constructor | libframesequence/FrameSequence_gif.cpp:62-122 | the two tables say for each frame which canvas it restores, if any, and which canvases will be restored; and the background colour, with the bytes of its four channels |
| GifAnimation.ControlPrinted | libframesequence/giflib/src/egif_lib.c:652-663 | reading a graphics control block undoes the printer, for every disposal, delay and transparent colour, none included |
| GifAnimation.ControlFields | libframesequence/giflib/src/dgif_lib.c:575-592 | the fields of a graphics control block, from its four bytes; any other length stands for none |
| GifAnimation.FirstControlCounts | libframesequence/giflib/src/dgif_lib.c:598-620 | the first graphics control extension of a frame counts |
| GifAnimation.CoverHasAll | libframesequence/FrameSequence_gif.cpp:141-146 | the test for covering holds exactly if every pixel of the one area is in the other |
| GifAnimation.PaintHasIndexColor | libframesequence/FrameSequence_gif.cpp:305-322 | a painted pixel has the four bytes of the colour that its index has in the map in force |
| GifAnimation.LastPainted | libframesequence/FrameSequence_gif.cpp:302-322 | so has every pixel of the frame asked for, in any file, from any canvas |
| GifAnimation.LeftBehind | libframesequence/FrameSequence_gif.cpp:267-293 | what a frame leaves behind: its own canvas if the next one covers it; else, by its disposal code, nothing in its area for 2, the canvas of the last frame with another code for 3, if there is one, and its own canvas otherwise |
| GifAnimation.FrameSequenceState.SavePreserveBuffer | libframesequence/FrameSequence_gif.cpp:187-201 | the preserve buffer holds the canvas of the frame it is said to hold, before and after |
| GifAnimation.FrameSequenceState.RestorePreserveBuffer | libframesequence/FrameSequence_gif.cpp:203-215 | the canvas becomes the preserved one; pixels beyond its width stay |
| GifAnimation.FrameSequenceState.ClearFrame | libframesequence/FrameSequence_gif.cpp:278-288 | exactly the part of the frame that is on the canvas becomes transparent |
| GifAnimation.FrameSequenceState.PaintFrame | libframesequence/FrameSequence_gif.cpp:305-322 | each pixel of the frame that is on the canvas and neither transparent nor without a colour is painted, and no other; its four bytes are 0xff, blue, green and red of the colour that the map in force has for its index in the raster |
| GifAnimation.FrameSequenceState.Dispose | libframesequence/FrameSequence_gif.cpp:267-293 | each pixel becomes what the disposal of the frame before makes of it, unless the next frame counts as covering that one, for any file |
| GifAnimation.FrameSequenceState.Prepare | libframesequence/FrameSequence_gif.cpp:258-300 | the same with the background before the first frame; a canvas that some frame will restore is kept, pixel by pixel |
| GifAnimation.FrameSequenceState.Finish | libframesequence/FrameSequence_gif.cpp:302-323 | the frame is painted where it has a colour, or skipped where its disposal will overwrite it |
| GifAnimation.FrameSequenceState.DrawOne | libframesequence/FrameSequence_gif.cpp:249-324 | a turn of the loop: each pixel, its copy in the preserve buffer and the number of the frame kept there become what one turn makes of them, and no other pixel changes |
| GifAnimation.FrameSequenceState.FirstToDraw | libframesequence/FrameSequence_gif.cpp:236-247 | drawing starts from the canvas given, unless a canvas to be restored on the way is no longer in the buffer; then from frame 0 |
| GifAnimation.FrameSequenceState.DrawFrom | libframesequence/FrameSequence_gif.cpp:249-324 | the loop does that for one frame after the other, for any file and any canvas |
| GifAnimation.FrameSequenceState.DrawFrame | libframesequence/FrameSequence_gif.cpp:217-331 | for any file, each pixel is what these turns make of it from the frame that drawing starts with; for a file that is harmless at every pixel, whichever frame the canvas holds, the result is the one of drawing all frames from the first on; and whatever the run of calls, the preserve buffer holds the canvas that it is said to hold, which is one that is needed; and in any case every pixel of the frame whose index is in the map and not transparent has the four bytes of its colour |
| GifAnimation.PathIndependence | libframesequence/FrameSequence_gif.cpp:217-325 | for any file and any pixel: drawing any frame on a canvas that shows any earlier one, or none, with any needed canvas in the buffer, gives what drawing all frames gives, if and only if every frame that lets the pixel through finds nothing else there than it ought to; what it may find is computed from the file, frame by frame: what a skipped frame has left, or a canvas kept on an earlier run |
| GifAnimation.HarmlessDrawn | libframesequence/FrameSequence_gif.cpp:236-324 | such a file leaves canvas and buffer right, call after call |
| GifAnimation.FindsLeftover | libframesequence/FrameSequence_gif.cpp:236-293 | everything that a frame may find is really found by it on some canvas, from which the frames between are skipped |
| GifAnimation.WellMadeHarmless | libframesequence/FrameSequence_gif.cpp:267-293 | a file is harmless at every pixel if frames that count as covering the one before do paint all of it, and there is a canvas to restore wherever one is restored |
| GifAnimation.DrawnFrameRight | libframesequence/FrameSequence_gif.cpp:236-324 | path independence for a well-made file: from any canvas that shows any earlier frame, or from none, the turns end in what drawing all frames gives |
| GifAnimation.SkipHarmless | libframesequence/FrameSequence_gif.cpp:302-304 | for any file, skipping a frame rather than drawing it before the next one makes no difference to a pixel if and only if the next frame paints the pixel, the skipped one would have left it as it was, or its disposal overwrites it |
| GifAnimation.CoverWithHole | libframesequence/FrameSequence_gif.cpp:267-269 | a file that is not: a frame that counts as covering the one before, but has no colour for its pixel, ends in different pixels depending on whether the frame before was drawn; the standard has that pixel transparent |
| GifAnimation.NothingToRestore | libframesequence/FrameSequence_gif.cpp:289-291 | another one: its first frame is to be restored to previous, with the same effects |
| GifAnimation.StaleBuffer | libframesequence/FrameSequence_gif.cpp:203-215 | a third one: its first frame is to be restored to previous, too, and on the second run takes the canvas of a later frame that the first run has kept |
| GifAnimation.RestoringIsLast | libframesequence/FrameSequence_gif.cpp:92-101 | the canvas a frame restores is that of the last uncleared frame |
| GifAnimation.ShownAsStandard | libframesequence/FrameSequence_gif.cpp:289-291 | a pixel of any file is shown as section 23 of GIF89a has it, at every frame, if and only if wherever a frame lets the pixel through, the disposal of the frame before has left the same: a covered frame disposed of to the background was transparent; one restored to previous, but covered or with nothing to restore, shows the canvas of the last frame that stays, or the background if that was left behind since; a canvas brought back is transparent if the background was left behind since |
| GifAnimation.StandardBetween | libframesequence/FrameSequence_gif.cpp:92-101 | in the standard, the canvas before a frame is that of the last frame that stays, or the first background, or transparent if a frame since then has been disposed of to the background |
| GifAnimation.WellMadeAsStandard | libframesequence/FrameSequence_gif.cpp:289-291 | for a well-made file with a canvas to restore wherever one is asked for, only the last of these three matters |
| GifAnimation.UnmixedAsStandard | libframesequence/FrameSequence_gif.cpp:289-291 | so what is shown is what the standard says if no frame restored to previous comes right after one restored to background |
| GifAnimation.ShownUnlikeStandard | libframesequence/FrameSequence_gif.cpp:289-291 | four frames of one pixel for which what is shown and the standard differ |
| WebpAnimation.FrameSequence.constructor | libframesequence/FrameSequence_webp.cpp:50-85 | a frame is marked exactly if it is a key frame by the recursive rule |
| WebpAnimation.KeyFrameIff | libframesequence/FrameSequence_webp.cpp:62-74 | which frames are key frames, in closed form: those for which some frame fills the canvas, or is the first, and all from it up to this one are disposed of to the background; and those that replace the whole canvas themselves |
| WebpAnimation.ShownHasOwnPixel | libframesequence/FrameSequence_webp.cpp:249-262 | where a frame does not blend or its pixel has a byte of alpha other than 0, the compositor's canvas has that pixel |
| WebpAnimation.ShownElsewhere | libframesequence/FrameSequence_webp.cpp:204-262 | elsewhere it has what was there before: 0 at first and in the area of a frame disposed of to the background, and otherwise what the frame before has left |
| WebpAnimation.CoverHasAll | libframesequence/FrameSequence_webp.cpp:159-169 | the test for covering holds exactly if every pixel of the one area is in the other |
| WebpAnimation.FullHasAll | libframesequence/FrameSequence_webp.cpp:62-74 | the test for a full frame holds exactly if every pixel of the canvas is in it |
| WebpAnimation.KeyFrameStartsBlank | libframesequence/FrameSequence_webp.cpp:68-74 | before a key frame every pixel of the naive compositor's canvas is transparent, or the frame paints it |
| WebpAnimation.KeyFrameAlone | libframesequence/FrameSequence_webp.cpp:62-74 | the canvas after a key frame depends on no earlier frame |
| WebpAnimation.FrameSequenceState.InitializeFrame | libframesequence/FrameSequence_webp.cpp:204-232 | the canvas a frame is drawn on is the naive compositor's, but for what the frame will cover |
| WebpAnimation.FrameSequenceState.FixUp | libframesequence/FrameSequence_webp.cpp:254-287 | transparent pixels of a frame get the value below them, except where the frame before was disposed of |
| WebpAnimation.FrameSequenceState.DecodeFrame | libframesequence/FrameSequence_webp.cpp:234-289 | after decoding and the corrections the canvas is the naive compositor's; fails exactly if the frame cannot be decoded |
| WebpAnimation.FrameSequenceState.DrawOne | libframesequence/FrameSequence_webp.cpp:348-356 | a turn of the loop: a frame that is to be cleared need not be decoded |
| WebpAnimation.FrameSequenceState.FirstToDecode | libframesequence/FrameSequence_webp.cpp:303-312 | decoding starts at the last key frame up to the one asked for, if that is after the frame that the canvas holds, or else right after that frame |
| WebpAnimation.FrameSequenceState.DrawFrom | libframesequence/FrameSequence_webp.cpp:325-357 | with the two buffers changing places, the last one drawn to holds the canvas of the frame |
| WebpAnimation.FrameSequenceState.DrawFrame | libframesequence/FrameSequence_webp.cpp:291-374 | whichever frame the canvas holds, the result is the naive compositor's canvas after all frames, and the frame's own pixels are on it where it does not blend or their byte of alpha is not 0; pixels beyond the canvas stay |
| HashTree.HashIsPrime | libframesequence/Gifflen.cpp:11 | 11003 has no divisor but itself and 1 |
| HashTree.EverySlot | libframesequence/Gifflen.cpp:23-26 | so probing from any slot visits every slot |
| HashTree.NextProbe | libframesequence/Gifflen.cpp:17-28 | in a table that is not full there is always one more slot to probe |
| HashTree.NotThere | libframesequence/Gifflen.cpp:18-19 | a key whose probe path meets an empty slot is not in the table |
| HashTree.StoreStays | libframesequence/Gifflen.cpp:150-152 | an entry in the first empty slot of its path extends the map and disturbs no other key |
| HashTree.KeyIsXor | libframesequence/Gifflen.cpp:11 | pre * 256 ^ suf is the sum, so no two pairs share a key |
| HashTree.HashTree.FindHash | libframesequence/Gifflen.cpp:9-31 | ends, at the slot that holds the pair, or else at the empty one where it belongs |
| HashTree.HashTree.Put | libframesequence/Gifflen.cpp:150-152 | the table stores the map with the new pair |
| HashTree.HashTree.Clear | libframesequence/Gifflen.cpp:71-73 | the table stores the empty map |
| GifflenOutput.CodeFile.AppendCode | libframesequence/Gifflen.cpp:42-49 | a byte is appended to the data |
| GifflenOutput.CodeFile.WriteCode | libframesequence/Gifflen.cpp:52-60 | the bits of a code are appended to the bit stream |
| GifflenOutput.CodeFile.Dump | libframesequence/Gifflen.cpp:143-145 | the data is framed; a second empty block follows exactly if its length is a multiple of 255 |
| Gifflen.MaxBits | libframesequence/Gifflen.cpp:33-40 | the least number of bits that tells so many things apart, or 0 for more than 8192 |
| Gifflen.Gifflen.NewTable | libframesequence/Gifflen.cpp:79-91 | the codes and widths of a new table are those of a decoder that starts with the code size, 2 colours included |
| Gifflen.Gifflen.Search | libframesequence/Gifflen.cpp:121-148 | the inner loop takes pixels as long as the string is in the table; no pixel is lost or taken twice |
| Gifflen.Gifflen.DefineNext | libframesequence/Gifflen.cpp:149-175 | the code of the string is written at the width the decoder expects; table, decoder and width go on in step, across new tables too |
| Gifflen.Gifflen.Restart | libframesequence/Gifflen.cpp:157-171 | code 4096, though inserted, is never written: the table is cleared on both sides |
| Gifflen.Gifflen.FinishImage | libframesequence/Gifflen.cpp:138-146 | how the stream ends: a decoder reads only legal codes, and gets all pixels if at most two codes' worth of bits is lost behind them, or else all but those of the last code; how many are lost follows from the bits written before |
| Gifflen.Gifflen.Compress | libframesequence/Gifflen.cpp:63-179 | a decoder reads only legal codes, and gets exactly the image, except that it loses the string of the last code if and only if the greedy parse of the image is spoiled: code size 2, at most two codes in the last table, and 7, 0 or 1 full tables before it, modulo 8, for 0, 1 or 2 such codes; so with more than four colours it always gets the image |
| Gifflen.Gifflen.FinishParsed | libframesequence/Gifflen.cpp:138-146 | the end of the stream, in terms of the parse of the image: the last string is lost exactly if the parse is spoiled |
| Gifflen.Gifflen.DefineParsed | libframesequence/Gifflen.cpp:149-175 | writing a code and defining the next one, or clearing the table, takes table and bits written to those of the parse with one more pixel |
| GreedyParse.SpoiledIfLost | libframesequence/Gifflen.cpp:138-146 | the last code is lost, its bits and those of the end code not reaching the last whole byte, exactly if the code size is 2 and the counts of codes and tables are those listed |
| GreedyParse.KnownPair | libframesequence/Gifflen.cpp:132-136 | a pair is in the hash table exactly if its string has a code in the parse |
| GreedyParse.KeepsOn | libframesequence/Gifflen.cpp:149-175 | the table, the pending string and the number of bits written stay those of the parse, in the table and across the clear |
| GreedyParse.FullTable | libframesequence/Gifflen.cpp:157-171 | the table is cleared exactly when code 4096 has been given out |
| GreedyParse.BitsModulo | libframesequence/Gifflen.cpp:154-174 | with a code size of 2 every full table adds 5 bits, modulo 8 |
| GreedyParse.TableModulo | libframesequence/Gifflen.cpp:154-159 | because from the fourth code of a table on eight codes at a time have one width |
| Gifflen.NextTable | libframesequence/Gifflen.cpp:154-174 | the width grows exactly when the decoder's does |
| Gifflen.Ending | libframesequence/Gifflen.cpp:138-146 | the end code has the width of the code before, not that of the decoder, and the padding and the bits lost decide what is read |
| Gifflen.SecondPixelLost | libframesequence/Gifflen.cpp:138-146 | compressing the picture of the two pixels 0 and 1 gives data from which a decoder gets 0 alone |
| Relocate.Simulates | libmemcheck/inlineHook/relocate.c:487-604 | from any instruction on, the trampoline does what the original instructions do, up to the same jump, with a return address in the trampoline for a call, or up to the first instruction after them; an instruction that is copied must not have the program counter among its operands, which is decided from its encoding |
| Relocate.RunOne | libmemcheck/inlineHook/relocate.c:506-598 | the same for each instruction by itself, whatever its kind |
| Relocate.RunBranch | libmemcheck/inlineHook/relocate.c:508-537 | B and BX PC jump to the same target |
| Relocate.RunLink | libmemcheck/inlineHook/relocate.c:514-536 | BL and BLX jump to the same target, with LR behind their words in the trampoline |
| Relocate.RunAdd | libmemcheck/inlineHook/relocate.c:539-559 | ADD Rd, PC, Rm sets the same register and restores the one it borrows |
| Relocate.RunLiteral | libmemcheck/inlineHook/relocate.c:560-595 | ADR, LDR literal and MOV from PC set the same register, or jump if that is PC |
| Relocate.RunOther | libmemcheck/inlineHook/relocate.c:596-598 | any other instruction whose encoding does not read the program counter does the same elsewhere |
| Relocate.RunEnd | libmemcheck/inlineHook/relocate.c:602-603 | behind the last word, control goes on after the original instructions |
| Relocate.BranchesMovable | libmemcheck/inlineHook/relocate.c:138-151 | B, BL and BLX to any place, and BX PC, can be moved |
| Relocate.AddMovable | libmemcheck/inlineHook/relocate.c:152-154 | so can ADD of the program counter and any register, shifted or not, |
| Relocate.AdrMovable | libmemcheck/inlineHook/relocate.c:155-160 | ADR in both forms with an offset below 256, |
| Relocate.LiteralMovable | libmemcheck/inlineHook/relocate.c:161-166 | LDR of a literal on either side, and MOV of the program counter |
| Relocate.WordOffset | libmemcheck/inlineHook/relocate.c:521-529 | the sign extension of the branch offset is that of the architecture |
| Relocate.HalfWordOffset | libmemcheck/inlineHook/relocate.c:518-530 | and that of BLX, with its half word |
| Relocate.BranchType | libmemcheck/inlineHook/relocate.c:146-148 | what the classifier takes for a movable B has the opcode of B |
| Relocate.PcOperandBreaks | libmemcheck/inlineHook/relocate.c:596-598 | SUB R0, R1, PC is copied, and gives another result at any other address |
| Relocate.ExpandExact | libmemcheck/inlineHook/relocate.c:569 | the lower 12 bits of an ADR are its offset if and only if the offset is not rotated |
| Relocate.AdrMovedRight | libmemcheck/inlineHook/relocate.c:569-580 | an unconditional ADR to a register other than PC does the same in the trampoline as before if and only if its offset is not rotated |
| Relocate.RotatedAdrBreaks | libmemcheck/inlineHook/relocate.c:569 | ADD R0, PC, #256 is moved to something else |
| Relocate.RelocateOne | libmemcheck/inlineHook/relocate.c:506-598 | the words for an instruction are appended, at most six |
| Relocate.RelocateInstructionInArm | libmemcheck/inlineHook/relocate.c:487-604 | the array holds the whole trampoline, and the boundary arrays say where each instruction begins, here and there |
| HookRegistry.MemoryIsOverlay | libmemcheck/inlineHook/inlineHook.c:332-361 | in every state of the registry the code in memory is the original code overlaid with the patches of exactly the hooked items |
| HookRegistry.TargetsUnique | libmemcheck/inlineHook/inlineHook.c:250-261 | no two items have the same target |
| HookRegistry.ItemChanged | libmemcheck/inlineHook/inlineHook.c:332-361 | patching or restoring one item keeps all others as they are |
| HookRegistry.ItemRemoved | libmemcheck/inlineHook/inlineHook.c:236-240 | an item that is not hooked may be deleted by swapping |
| HookRegistry.ItemAdded | libmemcheck/inlineHook/inlineHook.c:263-276 | an item may be added to a consistent registry |
| HookRegistry.HookWritten | libmemcheck/inlineHook/inlineHook.c:336-350 | a patch shorter than the bytes saved leaves the others |
| HookRegistry.PatchReaches | libmemcheck/inlineHook/inlineHook.c:336-350 | what the patch does when it is executed: an ARM target, with the words of memory read as code, steps to the new address and changes nothing else; behind a Thumb target stands LDR.W PC, [PC] at a word boundary, a NOP before it if need be, and the new address is the word it loads |
| HookRegistry.HookedReaches | libmemcheck/inlineHook/inlineHook.c:332-361 | so every hooked item of a consistent registry leads from its target to its new address |
| HookRegistry.NoneHooked | libmemcheck/inlineHook/inlineHook.c:315-330 | with no item hooked the code is the original |
| HookRegistry.Registry.Find | libmemcheck/inlineHook/inlineHook.c:210-221 | the item with the target, if there is one |
| HookRegistry.Registry.RegisterInlineHook | libmemcheck/inlineHook/inlineHook.c:242-279 | each answer exactly when it is due; the new item saves the original code, not a patched one; no code is changed |
| HookRegistry.Registry.InlineHook | libmemcheck/inlineHook/inlineHook.c:363-397 | each answer when it is due; on success exactly the item asked for becomes hooked, and its target leads to its new address |
| HookRegistry.Registry.InlineUnHook | libmemcheck/inlineHook/inlineHook.c:294-313 | each answer when it is due; on success exactly the item asked for is gone and its code restored |
| HookRegistry.Registry.DoInlineHook | libmemcheck/inlineHook/inlineHook.c:332-361 | the item is hooked, and memory agrees; executing the code at the target, ARM or Thumb, then goes to the new address |
| HookRegistry.Registry.DoInlineUnHook | libmemcheck/inlineHook/inlineHook.c:281-292 | the item is deleted, and memory agrees |
| HookRegistry.Registry.InlineHookAll | libmemcheck/inlineHook/inlineHook.c:399-413 | afterwards every item is hooked, and every target leads to its new address |
| HookRegistry.Registry.InlineUnHookAll | libmemcheck/inlineHook/inlineHook.c:315-330 | ends, although items are deleted under the loop; afterwards the code is the original, and exactly the items that were not hooked are left |
| Unwind.UnwindingUndoesPrologue | libcrash_collect/crash/stacktrace/arm/exidxstep.cpp:192-355 | for any list of pushes and lowerings of the stack pointer, of any masks and sizes, the matching instructions in reverse order restore the stack pointer and all pushed registers, and set pc to the saved lr |
| Unwind.UnwindingUndoesFrame | libcrash_collect/crash/stacktrace/arm/exidxstep.cpp:192-355 | the same for a function with a frame pointer: a push, any register set to sp plus or minus any offset, and the stack pointer then lowered by an amount that no instruction names; the register is the base from which all is restored, itself included if it was pushed |
| Unwind.UndoSteps | libcrash_collect/crash/stacktrace/arm/exidxstep.cpp:318-332 | undoing the steps of a prologue one by one, last first |
| Unwind.EnteredKept | libcrash_collect/crash/stacktrace/arm/exidxstep.cpp:318-328 | what a prologue has saved is still in memory after its further steps |
| Unwind.RunLower | libcrash_collect/crash/stacktrace/arm/exidxstep.cpp:194-199 | the instructions for lowering the stack pointer, as a frame pointer above it needs, by any multiple of 4 |
| Unwind.PopNames | libcrash_collect/crash/stacktrace/arm/exidxstep.cpp:200-228 | the registers that each form of the pop instruction names, bit by bit |
| Unwind.NoPop | libcrash_collect/crash/stacktrace/arm/exidxstep.cpp:202-271 | the bytes that are refused or reserved make unwinding fail; those that pop coprocessor registers change nothing |
| Unwind.PopRestores | libcrash_collect/crash/stacktrace/arm/exidxstep.cpp:318-328 | popping restores what was pushed, and nothing else |
| Unwind.PushSaves | libcrash_collect/crash/stacktrace/arm/exidxstep.cpp:320-326 | a push stores the registers where the pop will look for them |
| Unwind.UlebReads | libcrash_collect/crash/stacktrace/arm/exidxstep.cpp:234-243 | a uleb128 number of any length is read back |
| Unwind.RunAdjust | libcrash_collect/crash/stacktrace/arm/exidxstep.cpp:194-199 | the instructions for an adjustment of any size add up to it, the long form included |
| Unwind.PopDecodes | libcrash_collect/crash/stacktrace/arm/exidxstep.cpp:200-222 | both forms of the pop instruction decode to the mask they were made from |
| Unwind.ReadUleb | libcrash_collect/crash/stacktrace/arm/exidxstep.cpp:235-241 | the loop of shifts and ors computes the number |
| Unwind.TCursor.ApplyCmd | libcrash_collect/crash/stacktrace/arm/exidxstep.cpp:284-355 | the registers and the status change as the command says |
| Unwind.TCursor.PopLoop | libcrash_collect/crash/stacktrace/arm/exidxstep.cpp:320-326 | the loop pops the registers of the mask in order |
| Unwind.TCursor.ReadOp | libcrash_collect/crash/stacktrace/arm/exidxstep.cpp:193-271 | the chain of tests decodes every byte |
| Unwind.TCursor.Decode | libcrash_collect/crash/stacktrace/arm/exidxstep.cpp:167-278 | all instructions are run one after the other, up to the finish or the first failure |
| ExidxSearch.SearchBrackets | libcrash_collect/crash/stacktrace/arm/exidxstep.cpp:361-379 | the search ends, at an entry such that the key lies between it and the next one |
| ExidxSearch.SearchExact | libcrash_collect/crash/stacktrace/arm/exidxstep.cpp:361-379 | a key strictly inside an entry's range is found there, whatever is read before the first entry |
| ExidxSearch.SearchStart | libcrash_collect/crash/stacktrace/arm/exidxstep.cpp:369-372 | for the first key of a range it depends on which of the neighbouring entries the search looks at first |
| ExidxSearch.SearchRight | libcrash_collect/crash/stacktrace/arm/exidxstep.cpp:361-379 | a key is found in its own entry if and only if that is not the last entry, and the key is not the first of its range or the entry before is not looked at first |
| ExidxSearch.SearchBehind | libcrash_collect/crash/stacktrace/arm/exidxstep.cpp:361-379 | behind the last key, and so in the range of the last entry but for its first address, nothing is found |
| ExidxSearch.SearchBelow | libcrash_collect/crash/stacktrace/arm/exidxstep.cpp:361-379 | in front of the first key the search finds the address before the table exactly if it looks at the first entry and the word read in front of that is no greater than the key; otherwise nothing |
| ExidxSearch.SearchOffByOne | libcrash_collect/crash/stacktrace/arm/exidxstep.cpp:369 | a key that is found one entry early |
| Quantize.SortSorts | libframesequence/giflib/src/quantize.c:248-249 | sorting keeps the colours and puts them in order |
| Quantize.SortUnique | libframesequence/giflib/src/quantize.c:237-249 | there is only one way to sort: the key, taken from all three axes, tells any two colours apart |
| Quantize.PartitionSplit | libframesequence/giflib/src/quantize.c:280-288 | cutting a list in two keeps the lists a partition of the colours |
| Quantize.HalvesBoxed | libframesequence/giflib/src/quantize.c:295-301 | the two new boxes contain the colours of the two halves |
| Quantize.CutSplit | libframesequence/giflib/src/quantize.c:251-303 | after a split the cubes are linked lists, in their boxes, and a partition of the sampled colours |
| Quantize.HalvesTight | libframesequence/giflib/src/quantize.c:270-301 | after a cut all colours of the first list come before those of the second, by the axis, then the next one, then the third; the boxes end exactly at the colours at the cut and stay as they were on all other sides; sizes, first colours and counts are those of the code |
| Quantize.KeyOrder | libframesequence/giflib/src/quantize.c:313-328 | the key compares by the axis first, then by the next one, then by the third |
| Quantize.Quantizer.FindCandidate | libframesequence/giflib/src/quantize.c:207-221 | the widest side of any cube that can be split, and the first of these, or none |
| Quantize.Quantizer.Median | libframesequence/giflib/src/quantize.c:258-268 | as many colours as half the cube's count allows, but at least one, and at least one is left |
| Quantize.Quantizer.Split | libframesequence/giflib/src/quantize.c:223-303 | the cube is sorted along the axis and cut at its median, and both halves get the sides and counts of the code; all that holds of the cubes holds again |
| Quantize.Quantizer.SubdivColorMap | libframesequence/giflib/src/quantize.c:197-307 | there are as many cubes in the end as were asked for, or as there are colours; they are what cutting the first widest side at its median, time and again, makes of the one cube of the beginning |
| Quantize.SubdividedOneWay | libframesequence/giflib/src/quantize.c:206-303 | so which cubes are cut, and where, is determined by the first cube and the counts of the colours: two subdivisions of the same length are the same |
| Quantize.MedianUnique | libframesequence/giflib/src/quantize.c:258-268 | there is only one place to cut a sorted list at |
| Quantize.Quantizer.Sample | libframesequence/giflib/src/quantize.c:81-97 | each colour counts the pixels that have it |
| Quantize.Quantizer.ChainColors | libframesequence/giflib/src/quantize.c:110-124 | the list contains exactly the colours that occur |
| Quantize.Quantizer.SumColors | libframesequence/giflib/src/quantize.c:143-151 | every colour of the cube gets its index, and no other; each axis is summed up over exactly these colours |
| Quantize.Quantizer.Average | libframesequence/giflib/src/quantize.c:143-154 | and the mean of the colours is returned: n times each component is at most the sum of the scaled components, and n times the next number is more |
| Quantize.MeanRounds | libframesequence/giflib/src/quantize.c:152-154 | the components of the mean are the quotients, rounded down, of the sums of the scaled components |
| Quantize.Quantizer.GifQuantizeBuffer | libframesequence/giflib/src/quantize.c:59-188 | the number of colours; every pixel gets an index below it, of the cube that contains its colour; the cubes are those of the subdivision; every cube has the mean of its colours, and the rest of the map is cleared; the mean is stated by the inequalities that make it the sum over the number, rounded down, for each of the three components |
| Quantize.MeanBoxed | libframesequence/giflib/src/quantize.c:152-154 | the mean of a cube lies in its box |
| Quantize.IndexRounds | libframesequence/giflib/src/quantize.c:91-95 | the sampled colour is the pixel's, rounded down to 5 bits in each axis |
| Quantize.EnoughColors | libframesequence/giflib/src/quantize.c:206 | there are never more cubes than colours |
| Quantize.Singletons | libframesequence/giflib/src/quantize.c:220-221 | when no cube can be split there are as many as colours |
| Utf.TextKept | libcrash_collect/utils/utf.cpp:35-57 | the code writes exactly the characters of a text, strays left out, if and only if every high surrogate but a last one is followed by a low one |
| Utf.Utf16ToUtf8 | libcrash_collect/utils/utf.cpp:35-65 | what is written decodes to the characters the code takes the text for, which are those of the text under exactly that condition; the length is the sum of theirs; a zero follows if there is room |
| Utf.Utf32ToUtf8 | libcrash_collect/utils/utf.cpp:3-12 | a character is written as its UTF-8, and something that is no character not at all |
| Utf.DecodeEncoded | libcrash_collect/utils/utf.cpp:3-33 | what is written for a list of characters decodes to that list |
| Utf.CombinedPair | libcrash_collect/utils/utf.cpp:45-48 | a surrogate pair becomes its character |
| Utf.CombinedAnyway | libcrash_collect/utils/utf.cpp:45-48 | where a high surrogate and any other unit lead: never to that unit |
| Utf.UnpairedGarbled | libcrash_collect/utils/utf.cpp:45-48 | a letter behind a high surrogate that becomes another character |

## Left out

In the GIF codec:
- failing writes, failing allocation, the values of error codes, and the variants that open files: the output function takes everything, the input function is a byte string that ends.
- GifEncoder.EGif.PutLine: the first line of an image has at least one pixel; for one without pixels, which only an image of no width has, the C code reads the byte behind it.
- GifWriter.GifWriter.Spew: sizes must fit the 16-bit fields, each side of an image must be at least 1 and no extension may have a sub-block of length 0, which would end it; colour maps may have any size up to 256, as larger ones overflow the flags; an image's raster is a value that is copied before it is masked; that the C code masks the raster of its caller in place shows only in `GifEncoder.EGif.PutLine`.
- GifRoundTrip.RoundTrip: requires an image that is not deleted: if all are, EGifSpew writes a file without images, which DGifSlurp refuses; and the sort flag of an image's own colour map is lost, because EGifPutImageDesc does not write it.
- GifDecoder.DGif.DecompressLine: after a line that fails nothing is said of the state that is left; each step writes stack pointer and last code to their fields, while the C code works on copies, which it gives up on failure.
- GifReader.GifReader.Slurp: which images and extensions a file that is cut short leaves behind in the lists is not stated.
- EGifPutPixel, DGifGetPixel, EGifPutCode, DGifGetCode, DGifGetLZCodes, EGifPutComment and EGifPutExtension: other ways into the same code.
- an overflow of width times height on reading: the product of two 16-bit sizes is computed without bound.

In the second encoder:
- Gifflen.Gifflen.Compress: the order of interlaced rows is not modelled: its row numbers begin at 1, which skips the first row and reads behind the last one; nor are pictures of one pixel, for which the code reads a second one, and those of more than 768 rows.
- the headers of the file and the choice of the palette, which NeuQuant makes in code that is not part of this model.

In the compositors:
- GifAnimation.FrameSequence.constructor: a background index beyond the colour map, which the C code reads out of bounds, is not modelled; nor is the loop count.
- WebpAnimation.FrameSequenceState.DrawFrame: the decoder of libwebp is not part of this model: the pixels of a frame are given, those of a frame without alpha not transparent; the two correction loops of decodeFrame are one method with a flag.
- colours as packed 32-bit words with four channels: a colour is a number, of which the alpha is one digit.

In the relocator and the hooks:
- Relocate.Simulates: for ADD, nothing is kept in the word below the stack pointer, and the trampoline is in memory that instructions do not write.
- conditional branches, for which the condition is ignored, ADD with SP or with flags, other instructions that read the program counter, which are copied as they stand, and Thumb mode, whose immediates are not built as the architecture has them.
- HookRegistry.HookedReaches: where a hook leads is stated for new addresses of 32 bits; an ARM target is at a word boundary.
- HookRegistry.Registry.RegisterInlineHook: requires room in the table, because the C code does not check, and a target that overlaps no other; the number of boundaries in a slot, which the code does not reset when the slot is used again, is not modelled.
- Relocate.RelocateInstructionInArm: its lists of boundaries are fresh, as those of a slot are that is used for the first time.
- freezing threads, page protection, the cache, the signal to each thread, and the addresses of trampolines handed out.

In the unwinder:
- Unwind.TCursor.Decode: bytes behind the buffer read as zero, and the pops of floating point and wireless registers change nothing, as in the code.
- Unwind.ReadUleb: the number is unbounded until the final addition drops what is above 32 bits; the code drops the same in each step, as long as it does not shift by 32 or more, which takes a number of six bytes.
- finding the table of a function and extracting its bytes.
- ExidxSearch.SearchRight: keys are taken as numbers; the offsets they are computed from are not modelled.

In the quantizer:
- Quantize.Quantizer.GifQuantizeBuffer: a picture without pixels, for which the C code reads behind its table, and the statistics of errors, which are only printed.
- what the count of a cube means: the two halves of a split get each other's counts, which `Split` and `SubdivColorMap` state as the code has it.

In the converter:
- Utf.Utf16ToUtf8: requires three bytes for each unit; a smaller buffer is overrun by the last character in the C code.

The event queue, the streams, the LEB128 readers and the user interface of the application are not modelled.
