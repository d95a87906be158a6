# Verified model of the camera hub and its poller

This project models the stateful core of a two-device sensor system and proves what it is relied on
for. `yy1` is a camera hub: it extracts a thumbnail from each JPEG frame without decoding it, finds
and tracks moving regions, shares frames between tasks through a reference-counted pool, and reports
telemetry as JSON. `yy2` polls that telemetry and relays alarms.

| part | files | modelled program |
|---|---|---|
| connected components | `UnionFind`, `Connectivity`, `Labelling`, `BlobStats`, `TopBlobs`, `Components`, `BlobFinder` | two-pass labelling, statistics, eight largest |
| JPEG DC extraction | `Bits`, `BitReader`, `Huffman`, `BlockCode`, `Segments`, `ScanCode`, `LumaGrid`, `ScanDecoder`, `JpegHeader`, `JpegFile` | bit reader, Huffman tables, block and scan decoding, marker segments |
| frame pool | `PoolOps`, `FramePool`, `PoolProtocol`, `PoolSafety`, `PoolDelivery`, `WsStream`, `StreamConsumer`, `PipelineStats` | shared pool, producer, consumers, stream clients, frame-rate ring |
| motion | `Dilation`, `MaskCapacity`, `BlobMerge`, `MergeProperties`, `Tracker`, `TrackerFrames`, `TrackerRuns` | dilation, merging of close blobs, tracker |
| telemetry | `JsonText`, `TelemetryReport`, `SensorRegistry`, `SensorRuns` | JSON printer, chunk buffer, extractors, alert edges |

How the parts are built:

- Code that changes state in place is a class or a method over arrays, proved against a specification
  function or predicate; what the program promises is then proved about that specification.
- The JPEG side has an encoder as its specification: the procedures of ITU-T T.81 for Huffman codes
  (annex C), block coding (section F.1.2), byte stuffing (F.1.2.3), interleaving (A.2.3), restart
  intervals (E.2.4) and marker segments (B.2). The decoder is proved to undo it; the picture is a ghost
  parameter of the decoder's methods.
- The frame pool appears twice: as a class whose methods are the critical sections and atomic accesses,
  and as a state machine that interleaves one producer and any number of consumers at that granularity.
  In `publish`, dropping the old latest and each notification are steps of their own after the mutex has
  been given back.
- `Options` holds the one shared helper type.
- Functions that the code and its specification share are tied down by lemmas in terms of the data alone:
  what a cell's byte, a distance, a published box, a counter or an alert stands for.
- Components, boxes, partitions and windows are stated without reference to the algorithms: paths of
  neighbouring pixels, sets of pixels, the finest separated partition, counts over the full history.

Where the code does not do what is documented or expected, the model follows the code, and the exact
condition is proved:

- `frame_pool.h` lines 42-45 say that three held frames never starve the producer. They can
  (`PoolSafety.ThreeHoldsCanStarve`); acquire fails exactly when every slot is the latest or held
  (`PoolSafety.AcquireFailsIff`).
- `jpeg_dc.h` asks for a buffer of width/8 by height/8 bytes. The code writes a grid rounded up to whole
  MCUs: that buffer suffices exactly for pictures of whole MCUs (`JpegFile.DocumentedBuffer`), so the
  model asks for room for the grid.
- The frame rate counts unused ring entries: it is right exactly from one second after boot or from the
  64th publish on (`PipelineStats.RingCountsWindow`).
- Parsing a Huffman segment may never come back: exactly when it announces bytes beyond the data and the
  tables that are there are in order (`JpegHeader.StuckIff`). A caller who has checked that no segment
  announces bytes beyond the data is safe (`JpegHeader.HeaderLeft`).

Assumptions: atomics are sequentially consistent; fewer than 2^32 frames are published; there is one
producer; the JPEG scan is interleaved, or has sampling factors of one, with luma first; no DC
table holds the symbol 32, which would shift a word by its width (T.81 allows categories up to 11); no fill
bytes stand before restart markers; the scan's tables have been transmitted and the luma quantisation table
id is below 4; printed integers that are polled are below 2^31, as
`atoi` requires, and snapshot strings contain no quote.

## Model

| member | source | states |
|---|---|---|
| `UnionFind.HalvingKeepsRoot` | yy1/main/vision/blob_finder.c:33-36 | one path-halving write changes no label's representative and keeps every parent at most its child |
| `UnionFind.LinkMovesClass` | yy1/main/vision/blob_finder.c:46-47 | hanging the larger root under the smaller moves exactly the larger root's class |
| `UnionFind.AppendKeepsRoot` | yy1/main/vision/blob_finder.c:112-113 | opening a label adds a class of its own and disturbs no other |
| `UnionFind.LabelForest.Find` | yy1/main/vision/blob_finder.c:31-38 | returns the representative; no representative changes and no parent grows; when all smaller labels are already flat, the argument's label becomes flat too |
| `UnionFind.LabelForest.Union` | yy1/main/vision/blob_finder.c:40-48 | afterwards the two classes are one, represented by the smaller of the two old representatives, and every other class is as before |
| `UnionFind.LabelForest.Flatten` | yy1/main/vision/blob_finder.c:135-137 | one ascending pass of find leaves every label in use pointing directly at its representative |
| `Connectivity.AdjacentFlat` | yy1/main/vision/blob_finder.c:101-102 | neighbours at city-block distance one are, in row-major order, the next pixel of the same row or the pixel one row below, and nothing else |
| `Labelling.SameRootIffConnected` | yy1/main/vision/blob_finder.c:90-128 | for a finished labelling two labelled pixels have the same root if and only if a path of neighbouring labelled pixels joins them |
| `Labelling.StepFresh` | yy1/main/vision/blob_finder.c:105-119 | a pixel without earlier labelled neighbours may open a new label: the labelling invariant is kept |
| `Labelling.StepJoin` | yy1/main/vision/blob_finder.c:120-125 | a pixel with earlier labelled neighbours takes one of their labels after joining them: the labelling invariant is kept |
| `Labelling.LabelledSetDetermined` | yy1/main/vision/blob_finder.c:105-111 | the rule for pixels that find the table full determines the labelled set: two rasters obeying it label the same pixels |
| `Labelling.NothingDropped` | yy1/main/vision/blob_finder.c:106-111 | while the label table is not full the labelled pixels are exactly the foreground pixels |
| `BlobFinder.Finder.PlacePixel` | yy1/main/vision/blob_finder.c:101-126 | labels one foreground pixel, keeping the labelling invariant; it stays unlabelled exactly when it would open a label and the table is full |
| `BlobFinder.Finder.AssignLabels` | yy1/main/vision/blob_finder.c:86-128 | the whole first pass: the labels and forest satisfy the labelling invariant, the labelled pixels are exactly those the full-table rule allows, and the foreground count is exact |
| `BlobStats.AbsorbAddsPixel` | yy1/main/vision/blob_finder.c:160-165 | one accumulator update turns the statistics of a set of pixels into those of the set with one more pixel: count, sum, tight box |
| `BlobFinder.Finder.AccumulateStats` | yy1/main/vision/blob_finder.c:139-167 | after the second pass the record of every root holds the exact count, sum and tight box of the pixels of that root, although only the direct parent is looked up |
| `Components.MembersAreComponent` | yy1/main/vision/blob_finder.c:151-167 | the pixels whose label flattens to a root are precisely one connected component |
| `Components.ListingEnumerates` | yy1/main/vision/blob_finder.c:173-176 | the roots list every connected component exactly once, so counting roots counts components |
| `TopBlobs.Offer` | yy1/main/vision/blob_finder.c:190-199 | offering a blob keeps the buffer the eight largest of all offered so far, as multisets |
| `TopBlobs.KeptCount` | yy1/main/vision/blob_finder.c:190-199 | how many blobs are kept: all when at most eight were offered, else eight |
| `TopBlobs.SortByArea` | yy1/main/vision/blob_finder.c:60-71 | the insertion sort leaves the first n entries a permutation of themselves in descending area and the others untouched |
| `BlobFinder.Finder.Run` | yy1/main/vision/blob_finder.c:73-206 | the whole run: labels name the connected components, the pixel and component counters are exact, and the output is the largest eligible components, each with exact statistics, in descending area |
| `BlobFinder.ReportedAreComponents` | yy1/main/vision/blob_finder.c:179-188 | every reported blob is a connected component of at least the minimum area, with exact area and sum and tight box |
| `TopBlobs.ScoreIsMean` | yy1/main/vision/blob_finder.c:185-187 | score times area times 255 is the intensity sum, and the score of an empty blob is 0; stated of every reported blob and every merged one |
| `BlobFinder.UnreportedAreSmaller` | yy1/main/vision/blob_finder.c:190-199 | an eligible component is missing only when eight are reported, and it is no larger than any of them |
| `BlobFinder.AreasPlusDropped` | yy1/main/vision/blob_finder.c:99-111 | conservation: the areas of all components plus the dropped pixels equal the foreground count |
| `BlobFinder.DropsOnlyWhenFull` | yy1/main/vision/blob_finder.c:106-111 | pixels are dropped only when all labels have been opened |
| `BlobFinder.BlobRanges` | yy1/main/vision/blob_finder.c:180-188 | up to 320x240 the sums fit 32 bits, boxes lie in the raster and scores lie in the unit interval |
| `BitReader.Reader.Fill` | yy1/main/vision/jpeg_dc.c:118-142 | prefetching changes neither the bits still to be delivered nor where the run of data ends; it stops short of 25 bits only at the end of the run |
| `BitReader.Reader.Get` | yy1/main/vision/jpeg_dc.c:147-156 | delivers the next n bits of the unstuffed data whatever was prefetched, and -1 exactly when fewer remain before the next marker or n is more than prefetch can hold, which it never is up to 25 |
| `BitReader.PushByte` | yy1/main/vision/jpeg_dc.c:135-138 | shifting a byte into the 32-bit buffer loses none of the bits still to be delivered |
| `Segments.UnstuffSegment` | yy1/main/vision/jpeg_dc.c:118-142 | reading a byte-stuffed segment gives back its bytes and ends where the segment ends |
| `Huffman.BuildHuff` | yy1/main/vision/jpeg_dc.c:160-188 | fails exactly when more than 256 codes are announced; otherwise each length holds its first code, last code and first symbol position as in canonical order |
| `Huffman.TableStep` | yy1/main/vision/jpeg_dc.c:190-202 | for any table accepted by construction, Kraft or not, the symbol index stays inside the table, and one bit of table lookup is one step of bit-by-bit decoding |
| `Huffman.HuffDecode` | yy1/main/vision/jpeg_dc.c:190-202 | the table-driven decoder returns what decoding bit by bit against the transmitted lengths returns, and leaves the reader where that leaves it |
| `Huffman.CodeIsCanonical` | yy1/main/vision/jpeg_dc.c:168-186 | the codes generated by the figures of annex C of ITU-T T.81 are the ones the table construction assumes: first code of the length plus rank |
| `Huffman.CodesFit` | yy1/main/vision/jpeg_dc.c:168-186 | a table satisfying Kraft's inequality has codes that fit their lengths |
| `Huffman.HuffmanRoundTrip` | yy1/main/vision/jpeg_dc.c:190-202 | for every table satisfying Kraft, decoding the code of symbol k gives symbol k and consumes exactly that code |
| `BlockCode.ExtendUndoes` | yy1/main/vision/jpeg_dc.c:204-212 | EXTEND inverts the magnitude coding of section F.1.2.1 for every value |
| `BlockCode.DiffRoundTrip` | yy1/main/vision/jpeg_dc.c:341-349 | decoding an encoded DC difference gives prediction plus difference and consumes exactly its bits |
| `BlockCode.AcRoundTrip` | yy1/main/vision/jpeg_dc.c:351-365 | skipping consumes exactly the bits of the 63 coefficients, with EOB, ZRL and a full block without EOB |
| `BlockCode.BlockRoundTrip` | yy1/main/vision/jpeg_dc.c:335-368 | decoding an encoded block returns its DC value and leaves exactly the bits that follow it |
| `BlockCode.DecodeBlockDc` | yy1/main/vision/jpeg_dc.c:335-368 | the decoder over the prefetching reader does to the reader what the bit-string decoder does to the remaining bits, on every input including truncated data, whenever the next DC category is at most 25 |
| `BlockCode.CodedIsServed` | yy1/main/vision/jpeg_dc.c:341-344 | the DC category of every coded block is one the reader can serve |
| `BlockCode.BlockFailsIff` | yy1/main/vision/jpeg_dc.c:341-349 | a block fails exactly when no DC symbol can be decoded or its bits are not all there, never because of its AC coefficients |
| `BlockCode.SkipStep` | yy1/main/vision/jpeg_dc.c:351-365 | one AC symbol: size 0 skips sixteen coefficients for run 15 and ends the block for every other run; missing symbol or bits end the block |
| `BlockCode.Int16Wraps` | yy1/main/vision/jpeg_dc.c:346-349 | the prediction is kept modulo 2^16 between -2^15 and 2^15-1 |
| `LumaGrid.CellsDistinct` | yy1/main/vision/jpeg_dc.c:464-470 | no two luma blocks of the scan write the same cell |
| `LumaGrid.CellHasPlace` | yy1/main/vision/jpeg_dc.c:464-470 | every cell of the grid belongs to a luma block, the one at its coordinates |
| `LumaGrid.Luma` | yy1/main/vision/jpeg_dc.c:467-469 | the byte of a DC value, told by what it stands for: with t the dequantised value (a quantiser of 0 counts as 1), 0 for t <= -1032, 255 for t >= 1024, and otherwise at a distance k from 128 with 8k <= abs t < 8k+8, on the side of t's sign |
| `LumaGrid.ShadeUnique` | yy1/main/vision/jpeg_dc.c:467-469 | that description fits one byte only |
| `ScanDecoder.TrackBlock` | yy1/main/vision/jpeg_dc.c:461 | at every place of the interleaved order the next block decodes to its own DC value and leaves the reader at the next place |
| `ScanDecoder.IntervalDrained` | yy1/main/vision/jpeg_dc.c:479-491 | when the counter ends a restart interval, prefetch stands exactly at the restart marker, and the next interval follows it |
| `ScanDecoder.StartInterval` | yy1/main/vision/jpeg_dc.c:479-493 | a reset reader at the start of an interval is in step with the encoder again |
| `ScanDecoder.Decoder.DecodeScan` | yy1/main/vision/jpeg_dc.c:449-504 | if the data is a coded picture, with or without restart intervals, every cell gy*dc_w+gx ends up with the shade of the dequantised DC of its own block; on any data the walk ends at the scan's end or at the first block that cannot be decoded: cells before it hold the shade of what the bit-string decoder makes of the bits left there, the others keep their values, and nothing outside the grid is written |
| `ScanDecoder.Decoder.DecodeAt` | yy1/main/vision/jpeg_dc.c:461-462 | tries one block, and nothing after one that failed; the value and the failure are those of the bit-string decoder on the bits then left, with the component's prediction |
| `ScanDecoder.WriteKeeps` | yy1/main/vision/jpeg_dc.c:466-470 | storing the value of a block leaves the cells of all later blocks alone |
| `ScanDecoder.Decoder.Restart` | yy1/main/vision/jpeg_dc.c:479-493 | aligns to a byte, steps over two bytes exactly when they are a restart marker D0 to D7, and clears the predictions |
| `JpegHeader.FrameParsed` | yy1/main/vision/jpeg_dc.c:216-243 | parsing a transmitted frame header recovers height, width, components and largest sampling factors |
| `JpegHeader.HuffsParsed` | yy1/main/vision/jpeg_dc.c:245-270 | parsing a Huffman segment of any number of tables recovers each table and stops at the end of the segment |
| `JpegHeader.QuantsParsed` | yy1/main/vision/jpeg_dc.c:272-294 | parsing a quantisation segment of 8- and 16-bit tables recovers the first entry of each |
| `JpegHeader.SegmentsParsed` | yy1/main/vision/jpeg_dc.c:387-423 | the marker loop over any sequence of segments, with fill bytes, has the effect of the segments one after another |
| `JpegHeader.ScanBodyParsed` | yy1/main/vision/jpeg_dc.c:296-320 | parsing a scan header recovers tables and component of every reference |
| `JpegHeader.HeadParsed` | yy1/main/vision/jpeg_dc.c:383-426 | parsing a whole file head recovers what it says and stops at the first entropy-coded byte |
| `JpegHeader.HeaderNeeds` | yy1/main/vision/jpeg_dc.c:384-426 | on any data: refused without SOI, and after the marker loop without a frame, a scan component or DC table 0; otherwise what the loop has read |
| `JpegHeader.OtherMarkers` | yy1/main/vision/jpeg_dc.c:407-421 | on any data: EOI before the scan is refused, markers from E0 on are stepped over with their segment, lengths below 2 included, others are passed alone, and DRI sets the restart interval |
| `JpegHeader.FirstWithId` | yy1/main/vision/jpeg_dc.c:308-314 | a scan component is the first frame component with its identifier, or the first of all when none has it |
| `JpegHeader.MaxAttained` | yy1/main/vision/jpeg_dc.c:228-239 | the largest sampling factors are 1 or those of some component |
| `JpegFile.Parser.ParseSof0` | yy1/main/vision/jpeg_dc.c:216-243 | accepts exactly precision 8 and at most three components, and reads the frame header byte for byte, reading zeros past the end of the data |
| `JpegFile.Parser.ParseDht` | yy1/main/vision/jpeg_dc.c:245-270 | on every data on which the loop comes back: refuses exactly the segments with a table id above 1 or more than 256 codes, and reads the tables of the others |
| `JpegHeader.StuckIff` | yy1/main/vision/jpeg_dc.c:247-250 | the loop never comes back exactly when the segment announces more bytes than there are and the tables that are there are in order |
| `JpegHeader.InsideIsLeft` | yy1/main/vision/jpeg_dc.c:247-250 | the loop comes back for every segment inside the data |
| `JpegHeader.OutsideIsStuck` | yy1/main/vision/jpeg_dc.c:247-250 | a segment that reaches past the data is never parsed: refused when a table in the data is bad, otherwise never left |
| `JpegHeader.TurnPastEnd` | yy1/main/vision/jpeg_dc.c:97-101 | past the end of the data a turn of the loop reads an empty, acceptable table and does not move |
| `JpegHeader.StuckExample` | yy1/main/vision/jpeg_dc.c:245-270 | a two-byte segment of announced length 3 is never left; one of announced length 64 with a bad table id is refused |
| `JpegHeader.HeaderLeft` | yy1/main/vision/jpeg_dc.c:387-423 | parsing a whole head comes back when every byte pair FF C4 announces a segment inside the data |
| `JpegFile.Parser.ParseDqt` | yy1/main/vision/jpeg_dc.c:272-294 | on any data, refuses exactly a table id above 3 and otherwise keeps the first entry of each table |
| `JpegFile.Parser.ParseSos` | yy1/main/vision/jpeg_dc.c:296-320 | refuses exactly more than three components and resolves each component by the first matching identifier |
| `JpegFile.Parser.ParseToScan` | yy1/main/vision/jpeg_dc.c:387-423 | the marker loop finds the same headers, scan position and failures as the segment-by-segment description |
| `JpegFile.FileParsed` | yy1/main/vision/jpeg_dc.c:383-447 | for a well-formed file the head parses and the decoder stands in front of the coded picture |
| `JpegHeader.ParsedBounded` | yy1/main/vision/jpeg_dc.c:216-243 | every header read from bytes has 16-bit sizes, 4-bit sampling factors none above the largest, and scan components that exist |
| `JpegFile.GridFits` | yy1/main/vision/jpeg_dc.c:433-436 | for every parsed file with at least one frame component the grid's width and height fit their 16-bit fields |
| `JpegFile.DocumentedBuffer` | yy1/main/vision/jpeg_dc.h:34-36 | with luma at the largest sampling factors the documented buffer holds the grid exactly when there is no grid or the picture consists of whole MCUs |
| `JpegFile.DocumentedBufferTooSmall` | yy1/main/vision/jpeg_dc.h:34-36 | a 12x8 picture needs two cells where the documented buffer has one byte |
| `JpegFile.ExtractDcLuma` | yy1/main/vision/jpeg_dc.c:372-504 | which inputs give INVALID_ARG, FAIL and OK; for every file laid out per ITU-T T.81 (any segment order, fill bytes, restart intervals) the size is the least number of whole MCUs that covers the frame and cell (gx, gy) is the shade of the luma block there under the transmitted quantiser; on any data the cells before the first undecodable block hold what was decoded, and the others and everything outside the grid keep their values |
| `FramePool.FramePool.AcquireWritable` | yy1/main/cam/frame_pool.c:111-131 | takes the first slot with refcount 0 and sets it to 1, or counts a failure when there is none |
| `FramePool.FramePool.PublishSection` | yy1/main/cam/frame_pool.c:137-155 | numbers the slot one above the last, makes it the latest, and copies old latest and subscribers for the later steps |
| `FramePool.FramePool.CopyIn` | yy1/main/cam/cam_pipeline.c:139-143 | the producer's copy sets buffer, length, width and height of its slot to those given and nothing else |
| `FramePool.FramePool.GetLatestSlot` | yy1/main/cam/frame_pool.c:169-180 | takes a reference to the latest slot, or none when nothing has been published |
| `FramePool.FramePool.CheckNewer` | yy1/main/cam/frame_pool.c:188-195 | takes a reference to the latest slot exactly when its number is above the one given |
| `FramePool.FramePool.SubscribeTask` | yy1/main/cam/frame_pool.c:64-89 | appends the subscriber unless it is present or six are subscribed |
| `FramePool.FramePool.UnsubscribeTask` | yy1/main/cam/frame_pool.c:91-109 | moves the last entry into the freed place, and does nothing for a stranger |
| `PoolProtocol.RefsKept` | yy1/main/cam/frame_pool.c:111-209 | every step of producer or consumer keeps each refcount equal to latest + filling + pending drop + holders |
| `PoolProtocol.WakeupsKept` | yy1/main/cam/frame_pool.c:149-166 | every step keeps: a subscriber that found nothing newer and is missing a publish has a pending notification or is still to be notified |
| `PoolProtocol.InvAlways` | yy1/main/cam/frame_pool.c:111-209 | the whole protocol invariant holds in every world of every run of any number of consumers |
| `PoolSafety.RefcountsExact` | yy1/main/cam/frame_pool.c:111-209 | in every interleaving each refcount is exactly its references, hence never negative |
| `PoolSafety.AcquiredSlotUnused` | yy1/main/cam/frame_pool.c:115-127 | an acquired slot is not the latest and nobody holds it |
| `PoolSafety.AcquireFailsIff` | yy1/main/cam/frame_pool.c:115-130 | acquire fails if and only if every slot is the latest or held by a consumer |
| `PoolSafety.StarvedMeansThreeHolds` | yy1/main/cam/frame_pool.c:128-130 | acquire fails only while at least three consumer references are outstanding |
| `PoolSafety.ThreeHoldsCanStarve` | yy1/main/cam/frame_pool.h:42-45 | a run in which three consumer holds make acquire fail: the header's promise that three holds never starve the producer is false |
| `PoolSafety.QuiescentRefs` | yy1/main/cam/frame_pool.c:205-209 | with no holder and an idle producer only the latest slot is referenced, once |
| `PoolSafety.HeldFrameStable` | yy1/main/cam/frame_pool.c:169-209 | buffer, length and number of a held slot do not change between get and release, in any interleaving |
| `PoolSafety.PublishedSlotIntact` | yy1/main/cam/cam_pipeline.c:150-160 | until the producer has recorded its publish, in every interleaving, it may read the slot without a reference: still the latest, with the number and the time stamp it was given |
| `PoolSafety.PublishExceedsAll` | yy1/main/cam/frame_pool.c:139 | a published number is above every number in the pool |
| `PoolSafety.PublishedStrictlyIncrease` | yy1/main/cam/frame_pool.c:139 | published numbers strictly increase along every run |
| `PoolSafety.WaitReturnsNewer` | yy1/main/cam/frame_pool.c:188-194 | wait_newer hands out only a number above the one given |
| `PoolSafety.WakeupAlwaysPending` | yy1/main/cam/frame_pool.c:149-166 | no lost wake-up: a subscriber blocked with something newer published has a notification or is in the publisher's copy |
| `PoolSafety.DeliveryWakes` | yy1/main/cam/frame_pool.c:163-166 | in every run, whatever other tasks did meanwhile: once the publisher is through its list, every blocked subscriber with a newer frame to see has a notification |
| `PoolSafety.LoopHeadCounters` | yy1/main/cam/cam_pipeline.c:88-165 | at the producer's loop head frame_count, publish_count and next_seq agree, and drop_count is NULL fetches plus bad lengths plus acquire failures |
| `PoolDelivery.WrittenIsPublished` | yy1/main/cam/cam_pipeline.c:139-150 | in every run: after a write and the publish that follows it, the latest slot holds the bytes, length, width and height given to the write, with the next number and the publish's time stamp |
| `PoolDelivery.HeldIsWritten` | yy1/main/cam/cam_pipeline.c:139-150 | in every run, at any later time: a consumer that holds the frame numbered n holds the bytes, length, width and height written for n |
| `PoolDelivery.HeldWasPublished` | yy1/main/cam/frame_pool.c:137-195 | every frame a consumer holds got its number in one earlier publish |
| `PoolDelivery.CheckTakesIff` | yy1/main/cam/frame_pool.c:188-195 | wait_newer takes the latest frame if and only if there is one with a larger number, counting one reference, and else changes nothing |
| `PoolDelivery.GetTakesIff` | yy1/main/cam/frame_pool.c:169-180 | get_latest takes the latest frame whenever one has been published, counting one reference |
| `PoolDelivery.SubscribeAdds` | yy1/main/cam/frame_pool.c:64-89 | subscribing succeeds exactly for a subscriber or while fewer than six are subscribed; it succeeds if and only if the task is on the list afterwards; nobody else's place changes |
| `PoolDelivery.StaysSubscribed` | yy1/main/cam/frame_pool.c:64-109 | in every run a task told it is subscribed stays on the list until it unsubscribes itself |
| `PoolDelivery.WokenOnce` | yy1/main/cam/frame_pool.c:198-202 | in every run waking up takes all pending notifications: there are none until the publisher notifies the task again |
| `WsStream.SenderTask` | yy1/main/net/ws_stream.c:122-228 | for every sequence of turns: it subscribes; then for each turn up to the first that ends the session (more than 8 s without a frame, a failed send), in order, takes that turn's frame, sends it and gives it back, doing nothing for a turn without a frame; at the end it unsubscribes and frees its client slot; nothing else is done; the pictures counted are the turns whose picture was delivered |
| `WsStream.ReferencesBalanced` | yy1/main/net/ws_stream.c:142-227 | along any legal history takes and releases of a slot differ by exactly the reference held now |
| `WsStream.TakenInOrder` | yy1/main/net/ws_stream.c:143-153 | in every allowed history later frames have larger numbers |
| `StreamConsumer.HistoryAllowed` | yy1/main/net/ws_stream.c:131-222 | in every run of the pool protocol, with any other consumers, what a sender that keeps its own rules does is an allowed history, and its state in the protocol is the one the history leads to |
| `StreamConsumer.PoolOrdersFrames` | yy1/main/net/ws_stream.c:143-153 | in every run of the pool the frames a sender takes have strictly rising numbers: the order comes from the pool |
| `StreamConsumer.TurnsRise` | yy1/main/net/ws_stream.c:143-153 | what the sender's loop asks of the frames it is handed holds of the frames of every allowed history, hence of every run of the pool |
| `WsStream.Clients.AcquireSlot` | yy1/main/net/ws_stream.c:79-99 | takes the first free client slot, or fails exactly when the count says all are in use |
| `WsStream.Clients.ReleaseSlot` | yy1/main/net/ws_stream.c:101-113 | frees a slot in use and lowers the count; a second release or a bad index changes nothing |
| `PipelineStats.RingIsTail` | yy1/main/cam/cam_pipeline.c:59-60 | unrolled from its head the full ring is the last 64 publish times in order |
| `PipelineStats.RingCountsWindow` | yy1/main/cam/cam_pipeline.c:212-218 | for nondecreasing times the ring's count is min(64, publishes in the window) if and only if the window starts after time zero or 64 publishes have been recorded |
| `PipelineStats.EarlyWindowOvercounts` | yy1/main/cam/cam_pipeline.c:213-217 | in the first second, for every history of fewer than 64 publishes, the rate shown is 64 although fewer have been published |
| `PipelineStats.Stats.RecordPublish` | yy1/main/cam/cam_pipeline.c:54-62 | the ring stays the last 64 times of the publish history, also when the 32-bit head wraps |
| `PipelineStats.CountIsSize` | yy1/main/cam/cam_pipeline.c:212-218 | the loop's count is the number of ring places with a time in the window |
| `PipelineStats.Stats.GetFps` | yy1/main/cam/cam_pipeline.c:204-221 | the reported rate is the number of ring places with a time in the last second, which is min(64, publishes in the last second) exactly when the clock is past one second or 64 publishes have been recorded; before that it is 64 |
| `PipelineStats.Stats.RecordFail` | yy1/main/cam/cam_pipeline.c:64-72 | one more drop and one more consecutive failure, whose number is returned |
| `PipelineStats.Stats.RecordDropNoSlot` | yy1/main/cam/cam_pipeline.c:74-79 | one more drop, and the run of failures is left alone |
| `Dilation.DilateCrossMax` | yy1/main/vision/motion_detect.c:129-145 | every output pixel is the largest of the pixel and its neighbours inside the image, which it equals one of |
| `Dilation.NearPixelsJoined` | yy1/main/vision/motion_detect.c:125-145 | two motion pixels at city-block distance at most 3 lie in the same component of the dilated mask |
| `Dilation.ComponentsHaveMotion` | yy1/main/vision/motion_detect.c:453-457 | every component of the dilated mask contains an original motion pixel |
| `Dilation.MotionComponents` | yy1/main/vision/motion_detect.c:453-457 | on a mask of any size, dilation followed by a labelling run that does not fill its table: near motion pixels share a component and every listed component has one |
| `MaskCapacity.DilatedOpensFew` | yy1/main/vision/motion_detect.c:453-457 | a dilated 80x60 mask opens at most 1600 labels |
| `MaskCapacity.TableNeverFull` | yy1/main/vision/blob_finder.c:106-111 | on a dilated 80x60 mask the label table never fills and no pixel is dropped |
| `MaskCapacity.MaskComponents` | yy1/main/vision/motion_detect.c:453-457 | for every 80x60 mask: motion pixels at distance at most 3 share a component, and every listed component contains a motion pixel |
| `BlobMerge.MergeStep` | yy1/main/vision/motion_detect.c:182-200 | joining two blobs within the margin keeps: blobs are the exact merges of a partition of the input that every separated partition must coarsen |
| `BlobMerge.MergeCloseBlobs` | yy1/main/vision/motion_detect.c:163-208 | terminates, and the result is the finest partition of the input in which no two groups' boxes are within the margin on both axes, each blob being the hull, total area and total intensity of its group |
| `BlobMerge.BlobsCloseIff` | yy1/main/vision/motion_detect.c:149-182 | two blobs are close exactly when a column of one is at most the margin away from a column of the other and a row from a row |
| `BlobMerge.MergedRectangle` | yy1/main/vision/motion_detect.c:184-198 | a merged blob is the least rectangle around the rectangles of its group, and its score times area times 255 is its intensity sum |
| `MergeProperties.FinestUnique` | yy1/main/vision/motion_detect.c:163-208 | there is only one finest separated partition |
| `MergeProperties.OrderIndependent` | yy1/main/vision/motion_detect.c:163-208 | reordering the input blobs renames the groups, both ways, and equal groups are merged into equal blobs |
| `MergeProperties.MergeConserves` | yy1/main/vision/motion_detect.c:192-193 | total area and total intensity are conserved |
| `Tracker.TrackerState.PlaceBlob` | yy1/main/vision/motion_detect.c:235-287 | a blob goes to the first nearest unmatched track within the match distance; else to the first free slot; else nowhere |
| `Tracker.TrackerState.AllocTrackId` | yy1/main/vision/motion_detect.c:212-217 | hands out the next 16-bit identifier, never 0 |
| `TrackerFrames.PlacedNearest` | yy1/main/vision/motion_detect.c:235-287 | a blob goes to a track at most 12 mask pixels away that no other blob of the frame has taken, to the nearest, of equally near ones the first; without one to the first free slot; nowhere exactly when there is neither |
| `Tracker.TrackerState.Update` | yy1/main/vision/motion_detect.c:229-314 | places the blobs one after another, then ages the unmatched tracks and escalates the matched ones; what this does to every track is stated by TrackerFrames.FrameSmooths and TrackerRuns.TrackTells |
| `TrackerFrames.FrameSmooths` | yy1/main/vision/motion_detect.c:252-286 | in every frame a matched track moves 45% of the difference towards its blob's centre, size and score, a new one starts with them, and any other keeps them and its identifier |
| `Tracker.NoBlobLoopIsUpdate` | yy1/main/vision/motion_detect.c:466-481 | the inline loop for frames without blobs does what the update does with an empty list |
| `Tracker.TrackerState.Publish` | yy1/main/vision/motion_detect.c:317-369 | the active tracks with at least two hits, and only they, in table order, each in its published form, and the largest score among them |
| `TrackerFrames.PublishedStandsFor` | yy1/main/vision/motion_detect.c:330-354 | identifier, score, age and hits are the track's; a box not cut by the edge is centred on the smoothed centre within rounding and has the smoothed size to the nearest mask pixel |
| `TrackerRuns.TrackTells` | yy1/main/vision/motion_detect.c:229-314 | in every run, after every frame, for every track in use: age is the number of frames since it was started, hits the matched ones, misses those since the last match, alert_frames the frames up to now in a row matched with a score of at least 0.02, and was_alert holds if and only if there were three such frames in a row; a track is retired exactly after 21 misses in a row and started exactly when a blob goes to a free slot |
| `TrackerRuns.ModeTells` | yy1/main/vision/motion_detect.c:355-361 | in every run the published state is POSSIBLE exactly for a track no blob went to in this frame, and ALERT exactly for one that a blob went to and that has had three strong matches in a row since it was started |
| `TrackerRuns.IdsDistinct` | yy1/main/vision/motion_detect.c:212-217 | in every run tracks are numbered in the order they are started, and tracks in use have distinct identifiers while at most 65535 have been started |
| `TrackerFrames.MatchingOneToOne` | yy1/main/vision/motion_detect.c:235-287 | no two blobs of a frame go to the same track, and the tracks marked matched are exactly those a blob went to |
| `TrackerRuns.TrackerInMask` | yy1/main/vision/motion_detect.c:252-287 | under blobs inside the mask every active track of every run keeps its centre and size inside the mask and its score in the unit interval |
| `TrackerRuns.PublishedBoxInside` | yy1/main/vision/motion_detect.c:330-349 | the published box of such a track is non-empty and lies inside 640x480 |
| `JsonText.HitsOfLine` | yy2/main/system/sensor_registry.c:62-68 | within one line of the report the quoted key with its colon is found at the line's own name only, never inside or across a value |
| `JsonText.KeyFound` | yy2/main/system/sensor_registry.c:62-68 | the first strstr hit of a name no earlier line carries is that line, and its value follows |
| `TelemetryReport.BodyOk` | yy1/main/telemetry/web_reporter.c:30-133 | the printed body consists of lines whose names, values and punctuation contain no stray quote |
| `TelemetryReport.FieldFound` | yy1/main/telemetry/web_reporter.c:30-133 | a field of the body is what its key finds, followed by a comma or brace |
| `SensorRegistry.ActivityRecovered` | yy2/main/system/sensor_registry.c:137-140 | uptime, camera rate, motion rate and motion flag are read back; fps_1s finds the camera rate and not motion_fps_1s |
| `SensorRegistry.CollectedWhole` | yy2/main/system/sensor_registry.c:50-59 | a response cut into any chunks is reassembled if and only if it is shorter than 2560 characters |
| `SensorRegistry.HttpBuffer.OnData` | yy2/main/system/sensor_registry.c:50-59 | a chunk is appended whole when held and new characters together are fewer than 2560, and dropped whole otherwise |
| `SensorRegistry.SignedReadsBack` | yy2/main/system/sensor_registry.c:67-69 | atoi on the decimal digits of a number followed by punctuation gives the number |
| `SensorRegistry.DigitsAreDecimal` | yy2/main/system/sensor_registry.c:69 | a digit at the end multiplies the number by ten and adds it, and the first other character ends the number |
| `SensorRegistry.FieldReads` | yy2/main/system/sensor_registry.c:62-88 | of a field that is found, exactly the spaces are skipped; a flag is true exactly when the value starts with t, and the number starts there |
| `SensorRegistry.MissingField` | yy2/main/system/sensor_registry.c:62-98 | a field whose key stands nowhere has the default, and a text field is empty |
| `SensorRegistry.JsonInt` | yy2/main/system/sensor_registry.c:62-70 | finds the first hit, skips spaces and reads the number, or gives the default |
| `SensorRegistry.JsonBool` | yy2/main/system/sensor_registry.c:80-88 | true exactly when the value after the first hit starts with t, or the default without a hit |
| `SensorRegistry.JsonStr` | yy2/main/system/sensor_registry.c:89-98 | copies up to the next quote, at most one less than the buffer size, or empties the buffer without a hit |
| `SensorRegistry.TextRecovered` | yy2/main/system/sensor_registry.c:89-98 | the key with its opening quote is found at the field's place, and the text before the closing quote is recovered |
| `SensorRegistry.ParsedIsOriginal` | yy2/main/system/sensor_registry.c:137-148 | every polled integer, flag and the alarm reason equal those of the printed snapshot |
| `SensorRegistry.CastsWrap` | yy2/main/system/sensor_registry.c:137-148 | the conversions to 32 and 8 bits keep the number modulo the size of the type and bring it into range |
| `SensorRegistry.RoundTrip` | yy2/main/system/sensor_registry.c:50-148 | any chunking of an untruncated body is reassembled and parsed back to the snapshot |
| `SensorRegistry.Registry.PollOne` | yy2/main/system/sensor_registry.c:127-179 | the record and the alerts after a poll are those of the specification that SensorRuns.AlertsAreEdges, SensorRuns.TimesKept and SensorRegistry.FailureKeeps are about |
| `SensorRegistry.FailureKeeps` | yy2/main/system/sensor_registry.c:174-179 | a poll without a good answer, an empty one included, is counted and takes the sensor offline, keeps reading, flags and time of the last success, and sends nothing |
| `SensorRuns.AlertsAreEdges` | yy2/main/system/sensor_registry.c:150-172 | over any run of polls the alerts sent are, in order, one for each answer whose alarm (motion) is on and was off in the answer before it, with that answer's reason or the stock text (score and rate); failed polls neither send nor forget; the record shows every field of the last answer, the reason being the motion while motion has just begun |
| `SensorRuns.LevelAddsNothing` | yy2/main/system/sensor_registry.c:150-172 | an answer whose predecessor had the alarm (motion) on adds no alarm (motion) alert |
| `SensorRuns.TimesKept` | yy2/main/system/sensor_registry.c:126-134 | the record keeps the time of the last poll and of the last answered poll |

## Left out

- Wi-Fi, HTTP, WebSocket and Telegram transport, sensor and display drivers, HTML pages, logging, authentication: calls into libraries and user interface; what they deliver enters the model as parameters.
- Floating-point rounding and `%f` formatting: blob scores and track coordinates are reals; measurements printed with a fraction are held as their printed text; `json_float` and the numeric motion score are therefore absent.
- RTOS scheduling, weak memory ordering, tick wrap-around, allocation failure, NULL and `initialized` checks.
- Counters that only grow (sequence numbers, statistics) are unbounded; the 32-bit ring head and the 16-bit track identifiers are modelled with their wrap-around.
- TrackerRuns.IdsDistinct: identifiers of active tracks are stated distinct only while at most 65535 tracks have been started, because the 16-bit counter then starts again.
- BitReader.Reader.Get: a request of exactly 32 bits is excluded, because the code would shift by the width of the word.
- BlockCode.DecodeBlockDc: for a DC category above 25, which no coded block has, only the position of the run's end is described; whether it is served depends on how much has been prefetched.
- JpegFile.ExtractDcLuma: asks for a head on which parsing comes back, for tables that have been transmitted and for a buffer that holds the grid; for data that is not a well-formed file each decoded cell is tied to the bits that were left when its block was tried, but not those bits to the bytes of the file. Non-interleaved scans with larger sampling factors are decoded in MCU order by the code and are not described.
- JpegFile.Parser.ParseDht: data on which the code's loop never comes back (`JpegHeader.StuckIff`) are excluded, since a method that does not return has no result to describe.
- JpegFile.Parser.ParseToScan: heads with such a segment are excluded likewise.
- JpegFile.GridFits: frames without components, which T.81 does not allow, are excluded; the code would then use the sampling factors of an earlier frame header.
- WsStream.Clients.AcquireSlot: the client count, which the code raises just after leaving the mutex, is raised together with the slot; handle, server and connection time of a slot are not kept.
- SensorRegistry.JsonInt: `atoi` is modelled on mathematical integers; beyond 2^31 the C function is undefined and the recovery lemmas do not apply.
- PoolProtocol.InvAlways: notifications to a task after it has unsubscribed are possible, because publish works on a copy; nothing is claimed about them.
- The per-label records are two arrays, parents and statistics, instead of one array of structures; Huffman tables are built as values and stored in the parser's fields.
- BlobFinder.Finder.Run: a raster of width 0 is answered before the loops, which would do nothing; rasters wider or higher than 65535 do not exist in the program's types.
- SensorRegistry.Registry.PollOne: the numeric motion score is not parsed; its two-decimal text is a parameter.
- SensorRegistry.ParsedIsOriginal: the alarm reason is shorter than 64 characters, the size of the field it is printed from and of the one it is read into.
- The motion task's frame loop (frame stride, difference mask, its own 32-entry rate ring) and its JSON text: single-branch steps around the modelled functions.
- `face_detect.cpp`, `classifier.c`, `alarm_engine.c`, `gas_analyzer.c`, `sensor_hub.c`, `bmp280.c`, `wifi_dual.c`, `bist_logger.c`, `sensor_registry`'s summaries and task loop: foreign models, driver arithmetic, log formatting and single threshold checks.
