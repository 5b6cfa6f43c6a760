# What is verified here

A Dafny model of the self-contained algorithms of the repository, with proofs of what they are for.
`dafny verify dfyconfig.toml` checks everything.

## The LZSS coder and Adler-32 (`src/lzss.c`)

* `compress_lzss` finds matches with 256 search trees, kept in flat parent/left/right arrays over a ring of
  4096 cells that is overwritten while the trees are in use. The arrays, the ring, the code buffer and all
  loops are modelled as they are (`LzssEncodeState`, `LzssEncoder`). Behind them stand trees as values
  (`LzssTree`), the relation between arrays and trees (`LzssLinks`: every link is mirrored by a parent;
  a tree with a hole describes one place in it), and the invariant over all 256 trees (`LzssForest`).
* What the coder *should* find is defined without ring or trees: `LzssWindow.Longest` tries every distance
  from 1 to N - F. `LzssMatching` carries the window invariant (`Scene`) that connects the two: which text
  position each cell holds, which positions still have a node, and that no key of a live node is touched
  when a cell and its mirror are overwritten.
* `decompress_lzss` keeps its own ring, part of which is never initialised. `LzssDecoder` shows it in step
  with the text, so that the uninitialised part is never read on the coder's output.
* `LzssPacking` is the byte format: flag bytes, the sentinel 0xFF00 that counts eight units, two-byte pairs.
* `LzssRoundTrip.RoundTrip` puts the two routines together.
* `LzssCoder` is the coder as a function of the text: trees and ring as values, one step at a time. It says which
  of several equally long matches is named. `LzssExamples` has two texts whose coding is known to the last byte.
* `Adler32` shows that one reduction per 5000 bytes gives the checksum of section 8.2 of RFC 1950.

**A finding.** The coder is *not* always as good as the brute-force search. It inserts the strings that begin
with one or more of the leading spaces nearest first, so that a string of 18 spaces before the text is
superseded by the one at distance 18, which is the first of them to leave the window. Afterwards up to 17
strings of spaces are still within reach of a pair but no longer in a tree. `LzssWindow.Blind` describes the
positions concerned by what the text looks like; `LzssWindow.BlindMisses` and `LzssMatching.SearchIsFound`
show that the coder is one byte short exactly there, and right everywhere else. For whole outputs
`LzssBlindSpot.BruteForceUnlessBlind` gives the exact condition on the text: the coder does what a brute-force
greedy coder does if and only if that one begins no unit at the blind position. A text has at most one, the
first run of 18 spaces if it comes up at the wrong time (`OneBlindSpot`), and `LzssBlindSpot.BlindSpotExists`
gives a text with a unit there. The round trip is not affected.

**Where the comments differ from the code.** The comment at `src/lzss.c:8` calls NMAX the largest chunk without
overflow. NMAX is 5000; the largest is 5552 (`Adler32.NmaxCouldBeLarger`). The model follows the code.

## Smaller cores

* `IoregSearch`, `IoregPicks`, `IoregCoverage`, `IoregSelection`, `IoregDisplay`: the four registry traversals of
  `src/ioreg.c` with the shared stack of ancestors, and what they show: the indentation, the order, the path from
  the root in tree mode. The depth suppression adds in 32 bits. Each match is printed exactly once,
  whatever matches, if and only if height and depth option together are at most 2^32 + 1
  (`EveryMatchOnceExactly`), and `CoversExactly` has the exact condition for a single match predicate. The same
  bound is exact for how far apart selected entries are, and for tree display to select the same entries.
  Beyond it the guard at `src/ioreg.c:887-895` may leave the depth option at 0 for the rest of the subtree,
  and the model does the same. `WrappedDepth` and `WrappedDepthPrintsTwice` show `-d -1` on a chain of entries.
* `ClipPrint`: width-limited printing in `src/ioreg.c`, piece by piece, is clipping the whole line.
* `SplitKext`: the segments of a split kext are collected into one file in `src/joker.c`, and the section
  offsets keep pointing at the same bytes.
* `DeviceTree`, `DtizeReader`, `DtizeListing`, `BonusWalker`: the two device-tree readers, `src/dtize.c` (a stream,
  with its buffers and its unchecked reads) and `src/6-bonus.c` (memory, with reads that may miss it), against one
  serialisation. Which trees `dumpTreeNode` measures rightly is exact: those with a property in every node and
  without flags in the length words.
* `Uleb128`: the variable-length number reader of `src/ota.c` against section 7.6 of DWARF 4.
* `BpfFilter`: the packet filter of `src/17-25-bpf.c`, run by a small interpreter.
* `Bits`, `Common`: C's bit operators as functions on natural numbers, and what several models share.

Methods follow the loops of the source; each is proved against a function, and the lemmas are about that
function. A position in the text is an integer (negative before the text), and its cell is
`CellOf(a) = (a + N - F) % N`; `& (N - 1)` is written `% N`.

## Model

| member | source | states |
|---|---|---|
| LzssRoundTrip.RoundTrip | src/lzss.c:77-352 | compressing and then decompressing exactly the bytes produced yields the text, for every text and every output size that gives a result, whatever the decoder's ring held; there is a result for every non-empty text once there is room for n + ceil(n/8) bytes |
| LzssEncoder.CompressLzss | src/lzss.c:235-352 | the output is the packed form of an encoding of the whole text in which every unit is the greedy choice, and which is the one that the text determines (`Coded`), ties between equally long matches included; null exactly for the empty text or when that form does not fit; nothing at or behind dstlen is written |
| LzssCoder.CodedIsUnique | src/lzss.c:235-352 | the text determines every unit, pair positions included |
| LzssExamples.AbcOutput | src/lzss.c:235-352 | the eleven bytes written for abcXabcYabcZ, where the second pair could name either of two strings and names the first |
| LzssExamples.SpacesAreOnePair | src/lzss.c:246-304 | a text of 3 to 18 bytes 0x20 is sent as one pair of its length, three bytes in all |
| LzssBlindSpot.OneSize | src/lzss.c:235-352 | all encodings of a text have the same packed size, so the text alone decides whether there is a result |
| LzssEncoder.EncodeAll | src/lzss.c:281-338 | the main loop ends, with the whole text encoded, or with a full group that does not fit, and then no more does the packed form of the whole text |
| LzssEncoder.SlideReading | src/lzss.c:309-327 | reading bytes keeps ring, mirror and trees in step with the text, and leaves a match for the new position |
| LzssEncoder.SlideFlushing | src/lzss.c:328-337 | so does moving on after the end of the text; len counts down with the text and never goes below zero |
| LzssEncoder.Start | src/lzss.c:246-280 | after init_state, the first read and F + 1 insertions the window invariant holds at position 0 |
| LzssEncoder.ChooseUnit | src/lzss.c:282-295 | the unit is right (it repeats text within reach) and greedy (as long as the search can find), cut to what is left of the text |
| LzssEncoder.WriteUnit | src/lzss.c:285-307 | the code buffer holds the group under way; a full one is sent; failure means that the packed form is longer than dstlen |
| LzssEncoder.Send | src/lzss.c:298-304 | sends all of the buffer, or fails exactly when it does not fit |
| LzssEncoder.Complete | src/lzss.c:281-338 | every rest of a text has an encoding by greedy units |
| LzssMatching.SearchIsFound | src/lzss.c:151-199 | with the window invariant, the tree search yields the brute-force longest match over all distances 1 to N - F, cut to the rest of the text (one less in the blind spot), at a position that really matches that far |
| LzssMatching.NoDistanceBeats | src/lzss.c:151-199 | outside the blind spot no distance has a longer match than the one found, although many positions have no node of their own |
| LzssMatching.BlindSearch | src/lzss.c:273-280 | in the blind spot the search yields F - 1 |
| LzssMatching.InsertStep | src/lzss.c:326 | inserting the string at pos, which is not in a tree before, keeps the window invariant |
| LzssMatching.SlideStep | src/lzss.c:310-319 | deleting the oldest string and overwriting its first cell and the mirror keeps the forest and the window invariant |
| LzssMatching.KeyUntouched | src/lzss.c:310-319 | the overwritten cell lies in no key of a string that stays |
| LzssMatching.KeyReadsText | src/lzss.c:179-184 | up to the end of what has been read, comparing keys reads text bytes, though mirror cells may differ from cells 0 to F - 2 |
| LzssMatching.KeyMatch | src/lzss.c:179-184 | a key comparison, cut to the rest of the text, is a comparison of texts |
| LzssMatching.HoldsRead | src/lzss.c:312-323 | writing the next byte and its mirror makes the ring hold the window of the next position |
| LzssMatching.StartScene | src/lzss.c:273-280 | after the F strings before the text, every position within reach has a node with its key, or is a string of F spaces whose node is the one at distance F |
| LzssMatching.StartKeysRepeat | src/lzss.c:268-274 | two of the F strings before the text have the same key only if it is F spaces |
| LzssWindow.BlindMisses | src/lzss.c:268-274 | what the coder finds is the brute-force result if and only if the position is not in the blind spot, where brute force finds F |
| LzssWindow.NoBlindSpot | src/lzss.c:268-274 | texts of at most N - F bytes, texts that do not begin with a space, and texts that begin with F spaces have no blind spot |
| LzssWindow.LongestIsMaximum | src/lzss.c:151-199 | the reference search yields the maximum over all distances, and some distance attains it |
| LzssWindow.EncodesIsWellFormed | src/lzss.c:281-338 | an encoding consists of pairs of length 3 to 18 and literals and covers the text exactly |
| LzssBlindSpot.BruteForceUnlessBlind | src/lzss.c:273-338 | the whole output is that of a brute-force greedy coder if and only if that coder, run on the text, begins no unit in the blind spot; the condition does not mention what `compress_lzss` does |
| LzssBlindSpot.ClearUnlessReached | src/lzss.c:273-338 | which says that no unit of the brute-force coder begins at a blind position |
| LzssBlindSpot.UnitIsStride | src/lzss.c:281-308 | unit by unit: the choice is the brute-force choice if and only if the position is not blind |
| LzssBlindSpot.UsuallyBruteForce | src/lzss.c:273-338 | which is so for all short texts, and all that do not begin with 1 to F - 1 spaces |
| LzssBlindSpot.BlindSpotExists | src/lzss.c:273-338 | a concrete text on which every encoding that the coder may choose has a unit of length 17 where 18 was possible |
| LzssTree.SearchFindsLongest | src/lzss.c:161-188 | the walk along one path finds the longest match of the whole tree, and a node that attains it |
| LzssTree.SearchFindsTopmost | src/lzss.c:183-187 | every node that matches as long lies below the one that is named |
| LzssTree.InsertKeepsOrder | src/lzss.c:151-199 | insertion keeps the strict order, adds the new node and removes exactly the node whose key it repeats |
| LzssTree.DeleteKeepsOrder | src/lzss.c:202-232 | deletion keeps the strict order and removes exactly the node |
| LzssTree.RemoveMaxSplits | src/lzss.c:213-222 | the in-order predecessor taken out is greater than all that stays in the left subtree |
| LzssLinks.AttachShape | src/lzss.c:162-177 | the writes at an empty slot add one leaf to the tree that the arrays hold, and nothing else changes |
| LzssLinks.SupersedeShape | src/lzss.c:189-198 | the writes at the end of insert_node put the new node in the place of the old one, NIL children included |
| LzssLinks.RelinkShape | src/lzss.c:208-231 | with at most one child, the writes of delete_node move that subtree up |
| LzssLinks.PromoteShape | src/lzss.c:213-231 | a left child without a right child replaces the deleted node |
| LzssLinks.ExciseShape | src/lzss.c:218-219 | the rightmost node of the left subtree is taken out, its left child moves up |
| LzssLinks.MoveUpShape | src/lzss.c:220-231 | and then replaces the deleted node |
| LzssForest.ParentTellsMembership | src/lzss.c:206-207 | parent is NIL exactly for cells in no tree, and else a cell or the right root slot, so no left child of a root is ever used |
| LzssForest.ForestTextFrame | src/lzss.c:309-319 | overwriting bytes that no key in the forest reads keeps the forest |
| LzssForest.ForestMoveUp | src/lzss.c:212-231 | lifting the predecessor keeps the invariant over all 256 trees |
| LzssForest.ForestInserted | src/lzss.c:151-199 | the writes of insert_node keep the invariant over all 256 trees |
| LzssEncodeState.EncodeState.constructor | src/lzss.c:129-141 | init_state yields 256 empty trees and N - F spaces |
| LzssEncodeState.EncodeState.CompareKeys | src/lzss.c:179-182 | the comparison loop yields the common prefix length and a difference of the right sign |
| LzssEncodeState.EncodeState.InsertNode | src/lzss.c:151-199 | keeps the forest invariant, inserts into the right tree, and leaves the search result in match_length and match_position: of all longest matches the one above all others in the tree, that is the first on the way down |
| LzssEncodeState.EncodeState.Rightmost | src/lzss.c:213-217 | the walk to the right ends at the greatest node of the left subtree, the in-order predecessor |
| LzssEncodeState.EncodeState.DeleteNode | src/lzss.c:202-232 | keeps the forest invariant and removes exactly the node, or nothing if it is in no tree |
| LzssPacking.ParsePack | src/lzss.c:93-114 | the reader recovers every token sequence from its packed form, full and partial groups alike |
| LzssPacking.ParseUnits | src/lzss.c:94-107 | in a group the sentinel bit is there for exactly eight units and bit 0 tells each unit's kind |
| LzssPacking.ReaderBits | src/lzss.c:94-107 | what the shifts and masks of the reader compute |
| LzssPacking.WriterBits | src/lzss.c:291-294 | the two bytes of a pair keep 12 bits of position and 4 of length |
| LzssPacking.FlagBits | src/lzss.c:285-296 | setting the mask bit adds the flag of the next unit |
| LzssPacking.PairLayout | src/lzss.c:291-294 | the first byte holds the low eight bits of the position, the second the high four and the length less 3 |
| LzssPacking.FlagsLayout | src/lzss.c:249-254 | bit i of the flag byte is set exactly if unit i is a literal |
| LzssPacking.CodesLayout | src/lzss.c:249-254 | each unit's code stands behind those of the units before it |
| LzssPacking.ParsePrefix | src/lzss.c:93-107 | input that ends early gives the first units, as many as are complete |
| LzssPacking.PackAppend | src/lzss.c:296-307 | full groups may be sent before the rest is known |
| LzssPacking.ExpansionBound | src/lzss.c:235-352 | n text bytes take at most n + ceil(n/8) bytes, and that many when there are only literals |
| LzssDecoder.DecompressLzss | src/lzss.c:77-118 | writes the replay of the tokens read, from a ring whose last cells are arbitrary, and nothing behind it; cut-off units end the text |
| LzssDecoder.CopyPair | src/lzss.c:108-113 | the inner loop copies byte by byte while the ring is written, overlaps included |
| LzssDecoder.CopyKeepsStep | src/lzss.c:108-113 | a pair that names an equal stretch of text reproduces it even when source and target overlap, and the ring stays in step |
| LzssDecoder.UnitKeepsStep | src/lzss.c:98-114 | lock-step: after each unit the decoder's position and ring agree with the text on every cell a later pair may name |
| LzssDecoder.DecodeEncoding | src/lzss.c:77-118 | decoding an encoding yields the text, for every content of the uninitialised cells |
| LzssDecoder.CutInput | src/lzss.c:77-118 | from the first bytes of any input come the first bytes of its output |
| Adler32.LzAdler32 | src/lzss.c:16-38 | equals the byte-at-a-time Adler-32 of section 8.2 of RFC 1950, for every buffer: the plain sum modulo 65521 in the low half, the weighted one in the high half |
| Adler32.KnownValue | src/lzss.c:16-38 | the checksum of Wikipedia is 0x11E60398 |
| Adler32.AdlerClosedForm | src/lzss.c:16-38 | the definition in closed form: plain and weighted sums, reduced once |
| Adler32.NmaxIsSafe | src/lzss.c:7-8 | in a chunk of NMAX bytes the sums stay below 2^32 |
| Adler32.NmaxCouldBeLarger | src/lzss.c:7-8 | they do so in a chunk of any size if and only if it has at most 5552 bytes |
| Adler32.Do1Tracks | src/lzss.c:10 | an unreduced step is right modulo BASE and within the bound |
| Adler32.Do16Tracks | src/lzss.c:11-14 | so are the sixteen unrolled ones, in the right order |
| IoregSearch.Scan | src/ioreg.c:790-850 | prints the tree in preorder down to the depth limit |
| IoregSearch.Search | src/ioreg.c:855-938 | prints one block per selected entry in preorder, for every depth option, also where the raised option becomes 0 and stays so below; the shared stack holds the ancestors at every call and again afterwards |
| IoregSearch.ShowMatch | src/ioreg.c:880-907 | prints the block of a selected entry; the depth option is as before, except that with tree display a sum of 2^32 leaves 0 |
| IoregSearch.ArchiveScan | src/ioreg.c:534-592 | the dictionary of the depth-limited tree |
| IoregSearch.ArchiveMatch | src/ioreg.c:623-655 | the dictionary of a selected entry, in tree mode inside those of its ancestors; the depth option as in ShowMatch |
| IoregSearch.ArchiveSearch | src/ioreg.c:597-704 | the array of the entries that search selects, in the same order; no array when there are none |
| IoregSearch.BlocksConcat | src/ioreg.c:855-938 | blocks are printed one after the other |
| IoregDisplay.SelectInOrder | src/ioreg.c:855-938 | entries are selected in preorder |
| IoregDisplay.ScanIndented | src/ioreg.c:790-850 | the first line shows the entry itself, and every other line a child of the entry on the nearest line above that is less deep, one level deeper |
| IoregDisplay.PlainBlock | src/ioreg.c:898-907 | without tree display a block begins with the entry at depth 0 and ends with a blank line |
| IoregDisplay.TreeBlock | src/ioreg.c:880-907 | with tree display, line i shows the i-th entry of the real root path at depth i; then come the lines of the block without tree display, every one that much deeper, if and only if depth and depth option together are at most 2^32 or there are no children |
| IoregDisplay.ArchiveMirrors | src/ioreg.c:534-592 | a dictionary holds the first levels of the tree, every child in its place, and no children key where there are none |
| IoregDisplay.TreeArchive | src/ioreg.c:623-648 | in tree mode the root is outermost, each dictionary on the path holds exactly the next one, and the entries are those of the path followed by those of the dictionary without tree mode |
| IoregCoverage.CoversExactly | src/ioreg.c:855-938 | without tree display and for any match predicate, no entry is printed more often than it occurs and every match exactly as often, if and only if no entry is selected at which the 32-bit addition wraps and below which something matches |
| IoregCoverage.EveryMatchOnceExactly | src/ioreg.c:855-938 | this is so whatever matches, if and only if height and depth option together are at most 2^32 + 1 |
| IoregCoverage.EveryMatchOnce | src/ioreg.c:855-938 | under that bound it is so for each match predicate |
| IoregCoverage.EveryMatchShown | src/ioreg.c:855-938 | no match is ever missed, for any depth option |
| IoregCoverage.PrintedTwice | src/ioreg.c:870-880 | when two entries in a row match and the addition for the first yields 0, the second is printed too often, in every registry |
| IoregSelection.SelectedApart | src/ioreg.c:870-880 | on any path selected entries are at least `depth` levels apart, and never below one another without a limit |
| IoregSelection.SelectedApartExactly | src/ioreg.c:870-880 | with and without tree display, whatever matches, if and only if height and depth option together are at most 2^32 + 1 |
| IoregSelection.TreeModeSelectsAlikeExactly | src/ioreg.c:882-896 | tree display selects the same entries under the same depth option, whatever matches, under the same exact bound |
| IoregSelection.WrappedDepth | src/ioreg.c:887-895 | `-d -1` on a chain of four: without tree display all three matches are selected, with it only two, the second one without a depth limit |
| IoregCoverage.ScanPrints | src/ioreg.c:790-850 | scan shows exactly the entries of the first levels |
| IoregSelection.WrappedDepthPrintsTwice | src/ioreg.c:871-874 | with a depth option so large that the addition wraps, an entry is printed twice |
| IoregSelection.SelectPathsAreReal | src/ioreg.c:911-938 | the path recorded with a selected entry is a path of the registry from the root, and the entry matches |
| IoregSelection.TreeModeWraps | src/ioreg.c:623-648 | in tree mode a match lies inside the dictionaries of its real root path, with the same dictionary as otherwise if and only if its depth and the depth option together are at most 2^32 or it has no children |
| IoregSelection.ArchiveMatchesScan | src/ioreg.c:534-592 | an archive holds exactly the entries that scan prints, in the same order |
| ClipPrint.Printer.Print | src/ioreg.c:1291-1315 | after any number of calls the line shows its first width - 1 characters without newlines, at least one cell stays free, and clipping is noted iff something was cut |
| ClipPrint.Printer.PrintLn | src/ioreg.c:1325-1337 | ends the line, with a `$` iff something was cut, and starts afresh |
| ClipPrint.Printer.PrintAll | src/ioreg.c:1291-1337 | a line made of any pieces is the clipped concatenation |
| ClipPrint.LineLooks | src/ioreg.c:1291-1337 | character by character: at most width - 1 of the text, then `$` exactly if there is more, then the newline |
| SplitKext.PatchSections | src/joker.c:2403-2433 | every section with a file offset is moved by the same amount in 32 bits; offset 0 stays 0, and sizes stay |
| SplitKext.PlaceSegment | src/joker.c:2356-2446 | a segment is appended at a page boundary with its bytes, and zeros fill up to the next boundary (a whole page if it ends on one) |
| SplitKext.SplitKext | src/joker.c:2347-2457 | all segments lie in the file in ascending order, disjoint, page aligned, with the bytes of their source; then the first page is the patched header |
| SplitKext.AllSectionsKeepContent | src/joker.c:2347-2457 | in the finished file every section that lies inside its segment keeps its place in it, and behind the rewritten first page its patched offset shows the bytes it had |
| SplitKext.SegmentShows | src/joker.c:2361-2370 | a segment shows the bytes at its address if that lies in the prelinked data, last address included, and else those at its offset in the kext |
| DeviceTree.ParseSer | src/dtize.c:30-111 | reading a serialised tree recovers it and stops right behind it, flags and padding included |
| DeviceTree.SerParse | src/dtize.c:30-111 | whatever is read as a tree is its serialisation |
| DeviceTree.WordBytes | src/dtize.c:40-41 | words are read lowest byte first |
| DeviceTree.FlagMask | src/dtize.c:51-55 | masking the length word splits it into the top four bits and the rest |
| DtizeReader.Reader.GetProp | src/dtize.c:48-66 | one property, on any file: what is printed, what the buffers hold (short reads overwrite only their front), where reading goes on; or exit on a length over 8192 |
| DtizeReader.Reader.GetDTNode | src/dtize.c:30-111 | on any file, where it stops reading or that it exits; indent is restored; and what begins with a tree is printed in order |
| DtizeReader.NodeFlowAgrees | src/dtize.c:30-111 | a tree is read exactly; an excessive length leads to exit; a file that ends early is read to its end and the call returns as if nothing had happened, or exits |
| DtizeReader.ReadTree | src/dtize.c:30-111 | on every file that begins with a serialised tree, all of this holds |
| DtizeListing.ReadBack | src/dtize.c:30-111 | the listing can be read back: counts, properties at the indentation of their node, children in order under their numbers; so it determines the tree but for flags and padding |
| DtizeReader.ShortWord | src/dtize.c:40-50 | a short read leaves the bytes of a word that it does not store |
| BonusWalker.DumpTreeNode | src/6-bonus.c:91-150 | on any memory, returns what its two loops amount to, or reads outside |
| BonusWalker.MeasuresWalkable | src/6-bonus.c:91-150 | returns the number of bytes of every subtree of less than 4 GB with a property in every node and without flag bits, wherever it lies and whatever follows it |
| BonusWalker.MeasuresExactly | src/6-bonus.c:91-150 | and of no others, in an image of less than 128 MB that lies neither at nor across a multiple of 4 GB |
| BonusWalker.MeasuredByAccident | src/6-bonus.c:91-150 | at other addresses the 32-bit result may be right by accident: a leaf without properties eight bytes below 4 GB |
| BonusWalker.NodeMeasured | src/6-bonus.c:91-150 | for all other trees it reads outside such an image or returns an extent that leads out of it, and no later part makes up for that |
| BonusWalker.BothMeasure | src/6-bonus.c:91-150 | both programs measure the same image alike for these trees, and in such an image only for them |
| Uleb128.GetULEB128 | src/ota.c:668-689 | malformed exactly when the number takes more than 10 bytes or is at least 2^64; else its length and the signed 64-bit number that is congruent to its value |
| Uleb128.OverflowTest | src/ota.c:678 | shifting out and back changes the slice exactly when bits fall off the top |
| Uleb128.EncodeFits | src/ota.c:668-689 | every 64-bit number in its shortest encoding is read back |
| Uleb128.EncodeReads | src/ota.c:668-689 | numbers below 2^63 come back as they are |
| Uleb128.StandardExamples | src/ota.c:668-689 | the examples of section 7.6 of DWARF 4 |
| BpfFilter.FilterIsCorrect | src/17-25-bpf.c:162-179 | accepts exactly the packets whose bytes say IPv4 (0x08, 0x00), the protocol, no fragment offset, and one of the ports, high byte first, behind the header; all others, too short ones included, are rejected |
| BpfFilter.RunPorts | src/17-25-bpf.c:170-178 | the relative jumps of the last six instructions implement the choice between the two ports |

## Left out

- The C integer widths of pointers and lengths in `src/lzss.c` (32-bit lengths, a difference of pointers as `int`): lengths are unbounded here.
- Failure of `malloc`, `free`, and overlap between input and output buffers: the input of the coder and decoder is a value.
- LzssDecoder.DecompressLzss: requires room for the output, because `decompress_lzss` has no bound on dst and leaves it to its caller.
- LzssEncoder.CompressLzss: which of several equally long matches is named depends on the shape of the trees, and so on the whole history; it is determined by `LzssCoder.Coded` and characterised by the tree (`SearchFindsTopmost`), not by distance.
- IoregSearch.Search: the registry is a finite tree in one plane, less than 2^32 levels high, and iterators do not fail; the stack must be as long as the tree is high (the source has 64 slots). Indentation bits, property text and colours are not modelled.
- IoregCoverage.EveryMatchOnceExactly: entries are told apart by value, so equal entries in equal subtrees are counted together.
- ClipPrint.Printer.Print: the text is what the format produces; formats, embedded zero characters and output errors are not modelled.
- SplitKext.SplitKext: how the header is encoded is a parameter; segments that reach outside the kernel cache and failing writes are excluded, and the `int` file cursor is an unbounded number.
- DtizeReader.Reader.GetDTNode: what is printed about a tree that is cut off by the end of the file is left open, since it comes from uninitialised buffers. How a value is printed (number, text, zeros) is not modelled.
- BonusWalker.DumpTreeNode: only the words that steer the walk are read; names and values, the text buffers and their overflow are not modelled.
- BonusWalker.MeasuresExactly: that only walkable trees are measured is claimed for images of less than 128 MB that are neither at nor across a multiple of 4 GB; elsewhere it is false (`MeasuredByAccident`).
- BpfFilter.FilterIsCorrect: the kernel's interpreter is modelled only for the operations used; an out-of-range load rejects.
- Uleb128.GetULEB128: the reader has no end of buffer, so the bytes must be terminated, or at least eleven.
- The rest of `src/joker.c`, `src/ota.c`, `src/ioreg.c`, `src/dtize.c` and `src/6-bonus.c`: signature scanning, name tables, archive resynchronisation, XZ data, options, and output formats.
- `src/smut.c`, the process and code-signing tools, and the tools that only wrap system calls: nothing but calls into code outside the repository, or no property that holds in general.
