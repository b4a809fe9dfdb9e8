# Verified model of the accel-config algorithms

accel-config configures and tests Intel's data streaming (DSA) and analytics (IAA) accelerators. Its test tools
carry software versions of what the devices compute and loops that resubmit work after page faults; its utilities
carry the configuration loader, the option parser, bitmaps and linked lists. This project models that logic and proves
what it is for.

| file | models |
|---|---|
| `Bits.dfy` | machine words as bits, bit 0 first, with the C operators on them |
| `ShiftRegister.dfy` | long division over GF(2), the shift registers that compute it, byte tables, what a CRC can detect |
| `Crc64.dfy`, `Crc32c.dfy` | the two CRC engines (example polynomial of ECMA-182, Annex B; CRC-32C, section 12.1 of RFC 3720) |
| `Device.dfy`, `Memcpy.dfy`, `Refill.dfy`, `Batch.dfy` | the device as a nondeterministic step, and the page-fault resubmission loops |
| `Pattern.dfy` | filling and comparing with a repeated pattern |
| `Dif.dfy`, `DifInsert.dfy`, `DifCheck.dfy` | data integrity fields (T10 guard, section 4.22 of T10 SBC-3): insert, strip, resubmission, tag checker |
| `ZCompress.dfy`, `ZFormat.dfy` | zero compression in its three widths, and its format bit by bit |
| `Filter.dfy`, `FilterMasks.dfy` | the bit-packed filters |
| `Ring.dfy` | the intrusive doubly linked list and its corruption checker |
| `Loader.dfy` | the JSON configuration loader and its shared cursor |
| `Delivery.dfy`, `Forced.dfy` | what a load does, said without the cursor, and what it does to active devices |
| `KeyOrder.dfy`, `Redirect.dfy` | what the order of the keys, and objects as their values, change in a load |
| `Options.dfy`, `Argv.dfy` | resolution of long options, and the parser that compacts its arguments in place |
| `Reading.dfy` | what a command line means: which words are options, what they say, and why a line ends the program |
| `Bitmap.dfy` | word-masked bitmap updates and search |
| `Optional.dfy` | a value that may be missing |

Code that works step by step is a method or a class proved against a function of its inputs or its old state; what the
code promises is proved about that function. The device, which the source only submits to and waits for, is a method
that may do anything its completion record allows.

Where the code departs from its documentation or its evident intent, the model follows the code and theorems say exactly
when the two agree:

- `find_next_bit` and `find_next_zero_bit` add a one-based bit number to a zero-based position, so a found bit is
  reported one too high, the general form of `bitmap_full` does not look at the last bit, and the form for constants
  looks at too many when the size is 0 (`Bitmap.FindNextBit`, `Bitmap.BitmapFull`, `Bitmap.SmallFullIsAllSet`).
- `get_element` loads one word for the last element, so it cuts an element that reaches into the next word
  (`Filter.ElementIsField`, `Filter.ReadPacked`, `Filter.LastElementCut`).
- The loader reports an active work queue as skipped, but a setting for it then fails the whole load
  (`Delivery.ActiveQueueStopsLoad`, and `Delivery.LoadSucceeds` for every other way to fail).
- A scalar listed behind an array goes to the nearest object before it, which is its own exactly in documents that list
  scalars first, and has the same effect exactly when both objects name the same target
  (`KeyOrder.LateScalarGoesAstray`, `KeyOrder.ScalarReachesHome`). Behind an object as the value of a key the other keys
  are looked up inside that object, which is harmless exactly when they lead to the same values there
  (`Redirect.RedirectAgrees`).
- Resolving a write fault complements a byte. That spoils a copy between overlapping buffers exactly when the byte is
  still to be read (`Memcpy.ResolvedIsCovered`, `Memcpy.Run`).
- A resumed fill or compare restarts the pattern at its first byte, which is right exactly when the pattern agrees with
  itself shifted by each offset, for every pattern exactly at multiples of eight bytes (`Refill.ResumedFill`,
  `Refill.InterruptedCompare`, `Refill.ResumedCompare`, `Refill.PhaseMatters`).
- The order of the option table matters exactly when one long name is another with "no-" or "no-no-" before it, and some
  word names both (`Options.OrderIrrelevant`, `Options.OrderMatters`).

## Model

| member | source | states |
|---|---|---|
| ShiftRegister.FeedAllIsDivision | test/algorithms/iaa_crc64.c:135-149 | for every width, polynomial and message, a register fed byte by byte holds the remainder of GF(2) long division of the message with the initial register added to its front |
| ShiftRegister.TableStep | test/algorithms/iaa_crc64.c:87-93 | looking up the outgoing byte and shifting the rest equals feeding the eight bits of the byte one by one |
| ShiftRegister.LeftStepsMirror | test/algorithms/iaa_crc64.c:41-70 | k shifts towards the top bit are the mirror image of k shifts towards bit 0 with the reversed polynomial |
| ShiftRegister.StepsLinear | test/algorithms/iaa_crc64.c:41-70 | k shifts are linear over exclusive or |
| ShiftRegister.WindowsSeparated | test/algorithms/iaa_crc64.c:87-93 | with a constant term, two messages that differ only inside a window no longer than the register leave different registers, whatever precedes and follows |
| Crc64.SwapIsReversal | test/algorithms/iaa_crc64.c:26-39 | the byte-table swap reverses the 64 bits of its argument |
| Crc64.SmearIsWidthMask | test/algorithms/iaa_crc64.c:76-81 | or-ing shifts by 1, 2, 4, ... sets exactly the bits at or above the lowest set bit of the polynomial |
| Crc64.MaskIsInitCrc | test/algorithms/iaa_crc64.c:72-108 | initial value and final mask are the same division-order mask, in either bit order, with or without inversion |
| Crc64.InitTable | test/algorithms/iaa_crc64.c:41-70 | after the nested loops every entry is its index byte shifted out of the register, in either bit order |
| Crc64.UpdateFeeds | test/algorithms/iaa_crc64.c:87-93 | one table update feeds the eight bits of its byte to the register, in either bit order |
| Crc64.ReadQword | test/algorithms/iaa_crc64.c:111-120 | bytes are loaded little-endian and missing ones are zero |
| Crc64.ConsumeQword | test/algorithms/iaa_crc64.c:139-140 | the inner loop consumes the bytes of a quad word in memory order |
| Crc64.CalculateCrc64 | test/algorithms/iaa_crc64.c:122-152 | for every polynomial, buffer, length, bit order and invert flag the result is the remainder by long division, with inversion under a mask at both ends that has ones exactly at or above the lowest set bit of the polynomial |
| Crc64.BitOrdersMirror | test/algorithms/iaa_crc64.c:26-108 | the CRC with most significant bit first on a buffer is the bit-reversal of the other CRC on the buffer with each byte reversed |
| Crc64.LowBitsClear | test/algorithms/iaa_crc64.c:72-108 | no bit below the lowest set bit of the polynomial is ever set in a CRC |
| Crc64.OddDetects | test/algorithms/iaa_crc64.c:122-152 | with an odd polynomial, different buffers that agree outside eight consecutive bytes have different CRCs |
| Crc64.EvenCollides | test/algorithms/iaa_crc64.c:122-152 | with an even polynomial two different eight-byte messages collide |
| Crc64.DetectionNeedsOddPolynomial | test/algorithms/iaa_crc64.c:122-152 | every change inside eight consecutive bytes is detected if and only if the polynomial is odd |
| Crc32c.LookupIsSteps | test/dsa.c:1764-1771 | by the recurrence that generates the tables, table k holds its index byte shifted out followed by k zero bytes |
| Crc32c.EntryOneTwoEight | test/dsa_crc32.h:23-23 | entry 128 of the table is the polynomial, 0x82F63B78 |
| Crc32c.StrideIsSteps | test/dsa.c:1762-1771 | eight look-ups, one table a position, shift two words out of the register |
| Crc32c.StrideFeeds | test/dsa.c:1762-1771 | one stride consumes its eight bytes exactly as eight bytewise steps |
| Crc32c.ReverseU8IsReverse | test/dsa.c:1729-1733 | swapping reversed nibbles reverses the byte |
| Crc32c.ReverseWord | test/dsa.c:1735-1745 | the loop over bytes reverses the whole word |
| Crc32c.CalculateCrc32 | test/dsa.c:1747-1789 | for every length, seed and both bypass flags the strides, the tail and the bytewise path compute the remainder by long division, seeded and read out complemented, or reflected with the inversion bypass |
| Crc32c.SeedComposes | test/dsa.c:1747-1789 | feeding the CRC of a first part back as the seed of the second gives the CRC of the whole, with and without the inversion bypass |
| Crc32c.DataOrdersMirror | test/dsa.c:1779-1784 | the data-reflection bypass equals the fast path on bit-reversed bytes |
| Crc32c.DetectsWindows | test/dsa.c:1747-1789 | for both settings of both bypass flags, different messages that agree outside four consecutive bytes have different CRCs |
| Dif.T10EntryOne | test/crc16_t10_lookup.h:3-4 | entry 1 of the table is the polynomial, 0x8BB7 |
| Dif.T10Step | test/dsa.c:1877-1878 | one step of the left-shifting table loop is, mirrored, one byte fed to the right-shifting register |
| Dif.CalculateCrcT10dif | test/dsa.c:1870-1881 | the guard is the remainder by long division under the seed and result inversions |
| Dif.StripUndoesInsert | test/dsa_prep.c:634-648 | on whole blocks, stripping an inserted buffer gives the source back |
| Dif.TagSpells | test/dsa.c:302-309 | bytes 0 and 1 of a tag spell the guard of its block, bytes 2 and 3 the application tag and bytes 4 to 7 the reference tag modulo 2^32, each with the highest byte first |
| Dif.InsertLength | test/dsa_prep.c:635-637 | the destination of whole blocks is longer by eight bytes a block |
| Dif.InsertResumes | test/dsa_prep.c:632-640 | an insert cut at any whole block and resumed with the reference tag advanced by the blocks done is the uninterrupted insert |
| DifInsert.InsertedNext | test/dsa_prep.c:634-640 | a partial insert, rewritten as the source does, keeps: destination offset = source offset plus eight a block, reference tag = start plus blocks done, destination so far = insert of the source so far |
| DifInsert.InsertTask.Run | test/dsa.c:1330-1352 | in every run of faults and resubmissions at whole blocks the buffer ends as one uninterrupted insert, with the tag bytes that belong behind every block; exactly the page faults with the blocking flag off are resubmitted, at most one per unmapped page |
| DifCheck.InsertMeans | test/dsa.c:299-312 | a buffer is the insert of its source if and only if every block holds its data and behind it bytes that spell its guard, the application tag and the reference tag counting up |
| DifCheck.StripMeans | test/dsa_prep.c:641-648 | a buffer strips to its source if and only if every block holds its data |
| DifCheck.VerifyDifTags | test/dsa.c:2113-2167 | each of the three counters is zero if and only if in every block the bytes of its tag spell the guard, the application tag, or the reference tag that counts up unless the operation is an update |
| DifCheck.CheckerAcceptsInsert | test/dsa.c:2117-2167 | a buffer has no tag mismatch in any of the three counters and strips to the source if and only if it is the insert of the source |
| Device.Machine.ResolvePageFault | test/accel_test.h:262-274 | maps the page; complements the byte after a write fault and changes nothing after a read fault |
| Device.StatusFields | test/accel_test.h:262-274 | the status is its low six bits, and a write fault is bit 7 of it |
| Device.PagesAreOfBytes | test/dsa.c:778-791 | the pages of a region are those of its bytes |
| Device.FewerUnmapped | test/dsa.c:778-791 | resolving a fault on an unmapped page leaves exactly one unmapped page less |
| Memcpy.Reprep | test/dsa_prep.c:71-92 | the descriptor shrinks by the bytes completed, and moves by them only for an upward copy |
| Memcpy.MovedIsCovered | test/dsa_prep.c:80-85 | after a partial copy from the end that fits, the rewritten descriptor covers exactly the bytes not yet moved, whether or not the buffers overlap |
| Memcpy.DirectionMatters | test/dsa_prep.c:80-85 | a copy that stops part way can be resumed on every memory if and only if it worked from the end that fits: any end for separate buffers, else the high end when the source starts no higher than the destination and the low end when it starts no lower |
| Memcpy.ResolvedIsCovered | test/dsa_prep.c:87-87 | resolving a fault keeps the copy recoverable if and only if it complements no byte but one that is still to be written and not still to be read |
| Memcpy.ResolvedIsSpoiled | test/dsa_prep.c:87-87 | complementing a byte that is still to be written and still to be read spoils that byte of the copy and no other |
| Memcpy.FaultPlace | test/dsa.c:786-788 | every retried fault lies on an unmapped page of the two buffers, a write fault among the bytes still to be written |
| Memcpy.Run | test/dsa.c:772-794 | in every run, on overlapping buffers too, the descriptor covers exactly the bytes not yet moved; exactly the page faults with the blocking flag off and the translation failures are resubmitted, at most one per unmapped page; on success the destination is the source with the spoiled bytes complemented, so equals it if and only if none was spoiled, which is certain for separate buffers |
| Pattern.MemsetPattern | test/accel_test.c:380-397 | byte k becomes pattern byte k mod 8 for every length, and no other byte changes |
| Pattern.LoadIsPattern | test/accel_test.c:411-411 | a 64-bit load equals the pattern if and only if its eight bytes are the pattern bytes |
| Pattern.MemcmpPattern | test/accel_test.c:401-422 | returns 0 exactly on buffers that repeat the pattern, -1 otherwise |
| Refill.OneCutInStep | test/dsa_prep.c:148-150 | a single resumption is in step if and only if the pattern has the same bytes from its offset on as from its first byte, over the bytes that remain |
| Refill.ResumedFill | test/dsa_prep.c:148-150 | a fill resumed at any offsets, any number of them, ends as the uninterrupted one if and only if they are all in step with the pattern |
| Refill.PhaseMatters | test/dsa_prep.c:148-150 | resumptions are in step for every pattern if and only if all their offsets are multiples of eight |
| Refill.RunMemfill | test/dsa.c:832-854 | every successful run ends as a fill restarted at its resumption offsets, so as the uninterrupted fill if and only if they are in step; exactly the page faults with the blocking flag off are resubmitted, at most one per unmapped page |
| Refill.InterruptedCompare | test/dsa_prep.c:243-245 | a compare resumed at any offsets has the verdict of the uninterrupted one on every buffer if and only if they are in step |
| Refill.ResumedCompare | test/dsa_prep.c:243-245 | comparing a first part and then the rest is comparing the whole, on every buffer, if and only if the pattern agrees with itself shifted by the first part |
| Refill.RunCompval | test/dsa.c:946-968 | every successful run reports the verdict of a compare restarted at its resumption offsets, which is that of the uninterrupted compare when they are in step; exactly the page faults with the blocking flag off are resubmitted; memory is unchanged |
| Batch.BatchEngine.Reprep | test/dsa_prep.c:39-56 | the list address and count move past the completed descriptors |
| Batch.BatchEngine.Run | test/dsa.c:699-725 | the executed descriptors are a prefix of the list, each once and in order; exactly the list faults with two descriptors left or more are resubmitted, at most one per unmapped page, and a batch that gives up on one has at most one left |
| ZCompress.CompressFull | test/algorithms/iaa_zcompress.c:43-56 | a whole block writes its tag bits and its nonzero elements, on a buffer that was clear |
| ZCompress.CompressPartial | test/algorithms/iaa_zcompress.c:58-75 | a partial block writes its tags with every bit past its last element set, and its nonzero elements |
| ZCompress.DoCompress | test/algorithms/iaa_zcompress.c:34-78 | the output is the compressed format of the whole elements of the input, and nothing beyond it changes |
| ZCompress.CompressedSize | test/algorithms/iaa_zcompress.c:53-63 | the output is one group of tags per started 128-byte block plus the elements that are kept |
| ZFormat.NonzeroKeeps | test/algorithms/iaa_zcompress.c:46-54 | every element is kept as often as it occurs, except zeros, which are dropped |
| ZFormat.CompressMeans | test/algorithms/iaa_zcompress.c:34-78 | the whole output: its length, which tag bit of which word says of every element whether it has a set bit, that the tag bits past the last element are set, and where every nonzero element stands |
| ZFormat.ZerosVanish | test/algorithms/iaa_zcompress.c:46-75 | an input of zeros gives its tags alone |
| ZCompress.BlockReturns | test/algorithms/iaa_zcompress.c:193-204 | a block decodes to its elements from any position, whole blocks whatever follows, a partial block because nothing remains |
| ZCompress.DecompressBlock | test/algorithms/iaa_zcompress.c:193-204 | the tag loop appends exactly the decoded block and consumes exactly its data |
| ZCompress.DoDecompress | test/algorithms/iaa_zcompress.c:173-211 | the output is the decoding of the input, stopping when nothing remains, and nothing beyond it changes |
| ZCompress.DecompressUndoesCompress | test/algorithms/iaa_zcompress.c:34-277 | decoding undoes encoding for every input and width, down to the last whole element, whatever lies behind the data |
| ZCompress.RoundTrip | test/algorithms/iaa_zcompress.c:34-277 | the two routines run one after the other reproduce the source buffer |
| Filter.ElementIsField | test/algorithms/iaa_filter.c:8-37 | the element read is its bit field, for the last one if and only if none of its set bits lies in the next word |
| Filter.LastElementCut | test/algorithms/iaa_filter.c:8-37 | the second of two 20-bit elements loses the bit that lies in the next word |
| Filter.SetElement | test/algorithms/iaa_filter.c:39-57 | exactly the bits of the element are or-ed in at its position |
| Filter.PackedField | test/algorithms/iaa_filter.c:39-57 | element j of a packed buffer is the field at j times the width, for every width |
| Filter.ReadPacked | test/algorithms/iaa_filter.c:8-57 | reading back a packed buffer gives its elements if and only if the last one keeps to its word |
| Filter.DoSelect | test/algorithms/iaa_filter.c:155-184 | the output packs the elements at set mask bits, and the size is the bytes they take |
| Filter.DoExpand | test/algorithms/iaa_filter.c:279-311 | the output packs the inputs in turn at set mask bits and zeros elsewhere; only as many inputs are read as mask bits are set |
| Filter.SelectOfExpand | test/algorithms/iaa_filter.c:155-184 | selecting from an expansion gives the first elements, as many as mask bits are set |
| Filter.ExpandedAt | test/algorithms/iaa_filter.c:292-302 | position i of an expansion is zero where the mask bit is clear, else the element with as many set mask bits before it |
| Filter.ExpandOfSelectIsMasked | test/algorithms/iaa_filter.c:279-311 | expanding a selection gives the input with unselected elements zeroed |
| Filter.ExpandThenSelect | test/algorithms/iaa_filter.c:155-311 | for every width and mask, expand and then select through packed buffers gives back the first elements if and only if the element selected at the last position, if any, has no set bit in the next word |
| Filter.SelectThenExpand | test/algorithms/iaa_filter.c:155-311 | for every width and mask, select and then expand through packed buffers clears exactly the unselected elements if and only if not all are selected or the last has no set bit in the next word |
| FilterMasks.DoScan | test/algorithms/iaa_filter.c:59-88 | exactly the bits of inputs at least the low bound and at most the high bound are set, both bounds modulo 2^width |
| FilterMasks.ValueOfField | test/algorithms/iaa_filter.c:8-37 | the value compared is the number in the field of the element, for the last one if and only if no set bit of it lies in the next word |
| FilterMasks.DoSetMembership | test/algorithms/iaa_filter.c:90-114 | exactly the bits of inputs whose value is in the set are set |
| FilterMasks.DoFindUnique | test/algorithms/iaa_filter.c:250-277 | exactly the values that occur are set, and the size covers every value of the width |
| FilterMasks.UniqueThenMembership | test/algorithms/iaa_filter.c:90-277 | against the set built from the same input, membership answers 1 at every position |
| FilterMasks.ScanIsMembership | test/algorithms/iaa_filter.c:59-114 | a scan leaves the same output as membership against the bitmap of its interval |
| FilterMasks.DoRleBurst | test/algorithms/iaa_filter.c:186-248 | the output is the concatenation of the runs of each mask bit, and the size is the bytes they take |
| FilterMasks.CountsMean | test/algorithms/iaa_filter.c:196-228 | the 8- and 16-bit forms repeat by their elements, the 32-bit form by the differences of successive offsets modulo 2^32 |
| FilterMasks.RunAt | test/algorithms/iaa_filter.c:196-208 | behind the runs before it, every bit of a run is its mask bit |
| FilterMasks.OffsetsAreCounts | test/algorithms/iaa_filter.c:186-248 | run on a non-decreasing offset list, the 32-bit form leaves the same output and size as the 16-bit form run on the differences |
| Ring.ListCheckNode | ccan/list/list.c:20-36 | on every finite pointer graph, corrupt or not, the check terminates and returns the node if and only if the links form a ring that is consistent both ways |
| Ring.RingIsConsistent | ccan/list/list.c:38-43 | every well-formed list passes the check |
| Ring.ListHeadInit | ccan/list/list.h:146-150 | the head becomes an empty list |
| Ring.ListAdd | ccan/list/list.h:166-182 | the node becomes the first element and the rest keep their order |
| Ring.ListAddTail | ccan/list/list.h:195-204 | the node becomes the last element and the rest keep their order |
| Ring.ListDel | ccan/list/list.h:259-268 | the node leaves the ring and the others keep their order |
| Ring.ListAppendList | ccan/list/list.h:506-522 | the second list is moved whole behind the first and is left empty |
| Ring.ListPrependList | ccan/list/list.h:538-554 | the second list is moved whole in front of the first and is left empty |
| Ring.InsertedIsRing | ccan/list/list.h:166-182 | a chain linked between two neighbours of a ring makes a longer ring |
| Ring.DrainList | ccan/list/list.h:608-612 | an iteration whose body deletes the current entry visits every entry once, in order |
| Loader.Loader.ConfigureJsonValue | accfg/config.c:694-874 | a "dev" value moves the cursor as its name calls for; any other value goes to the first part of the cursor that is set |
| Loader.Loader.JsonParse | accfg/config.c:945-980 | the loop over the keys of an object, with the object that later keys are looked up in |
| Loader.Loader.JsonParseArray | accfg/config.c:982-1021 | the loop over the elements of an array, failing on an empty one, on nulls and on scalars |
| Loader.ParseIsRun | accfg/config.c:945-1021 | on a regular document the recursive walk sets the values in document order and stops at the first failure |
| Delivery.LoaderDelivers | accfg/config.c:694-1021 | on every regular document, in any key order, the walk with its one cursor delivers each value, in order, to the target that the nearest name before it selects |
| Delivery.EverySettingOnce | accfg/config.c:833-873 | delivering settings to a target succeeds if and only if none is rejected, and then each was made once, in order |
| Delivery.LoadSucceeds | accfg/config.c:694-1021 | the load of a document succeeds if and only if no name fails, no active queue has settings and every setting is accepted; its calls are then those of its segments one after the other |
| Delivery.ActiveDeviceSkipped | accfg/config.c:739-772 | without the force flag the whole subtree of an enabled device is skipped, whatever its key order, without a call or a failure |
| Forced.EnterTouches | accfg/config.c:739-751 | a name leaves every target of other devices as active as it was, and those of its own device too unless this is active, forced and can be disabled; then none of them stays active |
| Forced.LoadDisables | accfg/config.c:739-765 | a successful load disables a device once if it is named, active at the start and forced, and otherwise never; no call concerns such a device or its parts before that |
| Delivery.ActiveQueueStopsLoad | accfg/config.c:784-789 | wherever a document names an active queue, one setting behind the name fails the whole load; it cannot come to that when queues are active only under active devices |
| Delivery.ActiveQueueFails | accfg/config.c:784-789 | one setting for a queue that is active under an inactive device fails a load that succeeds otherwise |
| Delivery.StaysQuiet | accfg/config.c:739-789 | if queues are active only under active devices, and the device that parts belong to is not active, a load keeps it so |
| KeyOrder.ObjectsDelivered | accfg/config.c:694-1021 | when every object starts with "dev" and lists its scalars before its arrays, every setting is delivered to the target its own object names |
| KeyOrder.LateScalarGoesAstray | accfg/config.c:839-871 | in a document whose objects start with "dev", the nearest name before every value is the name of its own object if and only if no object lists a scalar behind an array |
| KeyOrder.TokenGoesAstray | accfg/config.c:839-871 | a token listed behind the groups of its device is set on the group |
| KeyOrder.ScalarReachesHome | accfg/config.c:839-871 | a scalar makes the call that the nearest name before it selects, and that is the call of its own object if and only if both names select the same owner |
| Loader.ObjectKeyRedirects | accfg/config.c:963-967 | whatever surrounds an object-valued key: its failure is lost, later keys are looked up inside it, so they load as in the whole object if they are found alike in both, and an array directly behind succeeds if and only if the inner object holds a nonempty array there that loads |
| Redirect.LookupsAgree | accfg/config.c:945-980 | keys found in one object load alike when looked up in another, on every machine and from every state, if and only if they are found there too and lead to the same values |
| Redirect.RedirectAgrees | accfg/config.c:963-967 | an object-valued key makes no difference to the keys behind it, on any machine, if and only if every array among them is found inside that object and leads to the values that were meant |
| Redirect.MissedKey | accfg/config.c:963-967 | an empty object in front of an array of objects makes the load fail |
| Redirect.SecondObject | accfg/config.c:963-967 | a second object-valued key must be found, as an object, inside the first, or the load fails |
| Redirect.IdleLoad | accfg/config.c:982-1021 | on a machine where no name means anything, an array loads if and only if it and every array in it has elements, none of them null or a scalar |
| Options.ParseLongOpt | util/parse-options.c:233-335 | the search loop, with its abbreviations, negations and ambiguity |
| Options.ConsiderMeans | util/parse-options.c:243-321 | whatever was found before it, a table entry is matched in full, is an abbreviated candidate in one of three ways, or plays no part |
| Options.PlainMeans | util/parse-options.c:243-321 | without "no-", the full match is the name itself and the candidates are its proper beginnings, none negated |
| Options.ResolveMeans | util/parse-options.c:233-335 | for every table and word, the first full match wins, else the only abbreviated candidate, else ambiguous if and only if there are two or more, else unknown |
| Options.OrderIrrelevant | util/parse-options.c:233-335 | a word resolves alike in every order of the table if and only if it matches no two different entries in full |
| Options.OrderMatters | util/parse-options.c:262-279 | the order of a table matters for some word if and only if two of its names clash: one is the other with "no-" or "no-no-" before it and some word names both |
| Argv.Context.GetArg | util/parse-options.c:36-51 | where an argument is found, and whether the next word is used up |
| Argv.Context.GetValue | util/parse-options.c:53-220 | which values an option takes or refuses, and what is left of the word |
| Argv.Context.ParseShortOpt | util/parse-options.c:222-231 | the first entry with the letter takes its value from the rest of the word or the next word, and no entry leaves the word as it is |
| Argv.Context.CheckTypos | util/parse-options.c:337-355 | a one-dash word that reads like the beginning of a long option, or like a negated one, is a typo |
| Argv.Context.ParseCluster | util/parse-options.c:394-428 | the switches of one word, rewritten in place from the first unknown one on |
| Argv.Context.ParseLong | util/parse-options.c:447-455 | a word with two dashes is resolved, takes its value, or is kept |
| Argv.Context.ParseLongWord | util/parse-options.c:437-455 | a word with two dashes that is not one of the parser's own is resolved as a long option |
| Argv.Context.ParseWord | util/parse-options.c:384-461 | the effect of one word on the vector: what is kept is written over words already read, and no unread word changes |
| Argv.Context.Step | util/parse-options.c:375-463 | the loop ends after at most as many rounds as words, with the kept words in front of the vector and the unread ones unchanged |
| Argv.Context.End | util/parse-options.c:465-470 | the unread words are moved down behind the kept ones |
| Argv.ParseOptions | util/parse-options.c:357-470 | although input and output share one vector, its front holds the program name if asked for, the kept words and the rest |
| Reading.NumericMeans | util/parse-options.c:160-164 | the number kinds accept the empty text, or blanks, at most one sign, and digits to the end |
| Reading.LongReads | util/parse-options.c:233-335 | a two-dash word is taken if and only if it says the option, negated or not, that its name resolves to, with the value that the attached text, the default or the next word gives it |
| Reading.ClusterReads | util/parse-options.c:394-428 | a one-dash word is taken if and only if each letter in order is a switch that takes no value, but the last, which may have the rest of the word or the next word; unknown letters end it only if unknown words are kept |
| Reading.OptionStops | util/parse-options.c:384-461 | an option word that ends the program does so for help, for a list, for a one-dash word that reads like a long one, for an unknown name or letter, or because no value it could have is accepted |
| Reading.ParsesAsRead | util/parse-options.c:375-470 | every line that parses has a reading: options with what they say and the words that are their values, kept words, at most one "--" and a tail; the words kept, the rest and the options taken, in order, are those of the reading |
| Reading.ReadsAsParsed | util/parse-options.c:375-470 | every line that has a reading parses, with the outcome of that reading |
| Reading.StopsAsRead | util/parse-options.c:375-470 | a line that ends the program reads sensibly up to an option that ends it |
| Reading.ReadOptions | util/parse-options.c:357-470 | the parser returns if and only if the line has a reading; the vector and the options taken are then those of the reading |
| Reading.SettledLine | util/parse-options.c:375-470 | a line of plain words, "--" and a tail comes back as it is |
| Bitmap.BitmapSet | util/bitmap.c:30-48 | exactly bits start to start + len - 1 are set, across any number of words |
| Bitmap.BitmapClear | util/bitmap.c:50-68 | exactly bits start to start + len - 1 are cleared, across any number of words |
| Bitmap.FindNextBitCommon | util/bitmap.c:85-108 | the search terminates with one more than the least wanted bit below the size, or with the size |
| Bitmap.FindNextBit | util/bitmap.c:113-123 | the result is the documented one if and only if nothing is found |
| Bitmap.LowestBitReported | util/bitmap.c:107-116 | the lowest bit is reported as bit 1 |
| Bitmap.BitmapFull | util/bitmap.c:130-130 | the general form holds if and only if every bit but the last is set, so it decides "all bits set" if and only if the last bit is set or another one is clear |
| Bitmap.LastBitUnseen | util/bitmap.c:107-130 | 64 bits of which only the last is clear pass for full |
| Bitmap.SmallFullIsAllSet | util/bitmap.c:127-128 | the form for small constant sizes means "all bits set" if and only if the size is not 0 or the word is full; at size 0 it looks at the whole word |
| Bitmap.FormsAgree | util/bitmap.c:125-131 | on one word the two forms give the same answer if and only if the last bit is set or another one is clear, and at size 0 if and only if the word is full |

## Left out

- The literals of the CRC and bit-reversal tables: tables are defined by their recurrences or by what they reverse.
- Address widths and 32-bit wrap-around of buffer lengths and bit counts: sizes are unbounded numbers.
- ZCompress.DoCompress: requires a clear destination, because whole blocks only set tag bits.
- ZCompress.DoDecompress: requires the input buffer to extend one group of tags past its data, because a cut group is
  read whole; the 8-bit decoder's pair of 64-bit tag words is modelled as sixteen tag bytes, which have the same bits.
- FilterMasks.DoFindUnique: excludes a valid width of 32, for which the source's shift is undefined.
- iaa_do_extract: a select on an index range, which reads past the input when the range does.
- Memcpy.Run: the device copies overlapping buffers from the end that fits; faults are reported on unmapped pages of
  the descriptor's buffers, write faults among the bytes still to be written, and a translation failure is a fault like
  any other.
- Refill.RunMemfill: faults of a fill are write faults and those of a compare are read faults, on unmapped pages of the
  bytes that remain.
- Redirect.RedirectAgrees: the document is regular but for one object-valued key, and so is the object.
- DifInsert.InsertTask.Run: the device stops at whole blocks and reports the tags for the next one.
- Batch.BatchEngine.Run: descriptors are their addresses; what each of them does is not part of the batch model.
- Submission, polling, time-outs and page protection: submission and waiting are one device step that may also report
  nothing, and a page once touched stays mapped.
- Resubmission of compare, dual cast, cache flush, delta records and whole-buffer CRC, and of DIF check, strip and
  update: the first ones repeat the loops here, the CRC one does not carry its partial result, and delta semantics are
  the device's.
- task_result_verify_dif, whose verdict is that of its last block only; the tag checker is modelled instead.
- Ring.ListCheckNode: node pointers are not null; the abort string and the debug-mode clearing of deleted nodes are
  left out.
- Parsing of JSON text and of device names: a document is a tree of ordered keys, and a table says what each name names.
- Delivery.LoaderDelivers: the load starts with a name, or in a loader that has met no device; setters are a log of
  calls, each of which may be rejected; their range checks, their filters of attribute names and the writes to sysfs are
  left out, and disabling a device makes its queues inactive.
- A key that is found in a redirected object with a value of another kind, which makes json-c abort, is a failed load.
- Argv.Context.GetValue: the variables that options write are a log of options taken, flag kinds are one kind, number
  kinds are one kind that must be written in decimal, and callbacks are the set of values they reject; the prefixing of
  file names is left out.
- Argv.ParseOptions: the null pointer behind the last word, help texts and exit codes.
- KeyOrder.ScalarReachesHome: every object starts with "dev"; without a name an object has no target of its own.
- Options.OrderIrrelevant: entries that share a long name are equal, and no long name contains "=".
- Driver, sysfs and library plumbing, zlib and OpenSSL wrappers, command dispatch, display and logging.
