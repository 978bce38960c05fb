# MediaPerch: the demuxers and codec wrappers, proved

MediaPerch plays media through small modules, each standing between a third-party parser and one
ABI: `read_packet`, `seek`, `decode`, `next_frame`. What such a module owns is a cursor, a packet
held back, a running position, a seek index, a byte framing. This project models those and proves
what the ABI promises of them.

A library is a script: the pages libogg finds, the elements libebml finds, the frames libFLAC finds,
a sample table, the steps libde265 takes, what dav1d takes of each offer, the samples Media
Foundation hands over, the writes of an FFmpeg child. Where an API leaves a choice to the library
(a short read, a packet not taken, a hole), the choice is a parameter and every theorem is for all of
them. A module's state is a class with its own fields; its methods are proved against functions
that list, with no reader at all, what a file holds.

| file | what it covers |
|---|---|
| `Delivery` | the `read_packet` contract the four demuxers share |
| `OggPages`, `OggSeek`, `OggDemux` | positions from page granules, opening, seeking |
| `MkvTime`, `MkvWalk`, `MkvDemux` | nanoseconds and cues, the cluster walk, the reader |
| `Mp4Seek`, `Mp4Demux` | placing tracks by presentation time, the reader |
| `FlacDemux` | the growing index of true points |
| `VorbisHeaders`, `StreamInfo`, `OggLacing`, `CodecSeeds` | framings and their readers |
| `Kraft` | what the AAC generator's check means |
| `SamplePacking`, `Rechunk` | samples as bytes, bytes as whole frames |
| `WavPackStream` | one byte of push-back over a file |
| `Dav1dCodec`, `De265Codec` | the two video wrappers |
| `Arith`, `ByteOrder`, `Patience` | 64-bit arithmetic, byte order, readers that give up |

## What turned out conditional

- **An empty Ogg packet can be lost.** A packet held back is recognised by its bytes not being empty,
  so an empty one offered to no buffer at all is gone. `CompleteIffSafe`: delivery is complete under
  every schedule if and only if no packet is empty. The other three demuxers are unconditional.
- **Ogg and Matroska give up.** One Ogg read takes at most 4,096 pages and holes, one Matroska search
  2^24 turns. `RunIsListing` and `ReadsTheFile`: everything is read if and only if no packet lies
  behind that many turns that find nothing; `StalledFileIsLost` and `StalledSegmentIsLost` are a file
  and a segment of which nothing is read.
- **A lost Ogg page makes positions late.** Each timed packet is behind its true start by exactly what
  was lost since the last granule (`PositionsExact`), and `HoleMakesPositionLate` is such a file.
- **An Ogg seek over a lost page can go back.** Reading a page out stops at a hole, so a packet behind
  one is delivered after the seek as though it started the later page. `SeekFollowedExactly`: what
  follows a seek is what it should be if and only if the last page read past is not one behind a lost
  page with a packet on it. `SeekBehindHole` is a file.
- **An MP4 seek can skip a sample that is due.** `NeverSkipsExactly`: none does, whatever the target,
  if and only if no sample in front of the sync sample of another is presented as late as that other is
  decoded with the reach on top. Every track whose composition offsets are shorter than itself meets
  that (`PlausibleIsCovered`); the module counts longer ones as none, and `ZeroedReachSkips` is one.
- **`to_frames` past 5 * 10^8 Hz.** It gives back the muxer's count if and only if truncation lost no
  more than half (`ToFramesUndoesMuxing`), which every lower rate guarantees;
  `ToFramesLosesAtHighRates` is a rate that does not.
- **The Kraft check sees lengths only.** It passes two equal codewords of length one
  (`KraftAloneIsNotEnough`). `CompleteExactly`: decoding is total and unambiguous if and only if the
  book passes and no codeword begins another, which the generator does not look at.
- **dav1d failing loses input.** A packet is accepted before dav1d has all of it. `Codec.Drive`: what
  dav1d was given and what is pending are the accepted packets if and only if no send of the run fails
  with input left; `AcceptedAndLost` is a packet accepted and lost.
- **An empty write ends a pipe.** A child that writes nothing at all in the middle looks ended.
  `PipeKeepsExactly`: no frame is lost if and only if no whole frame ends behind such a write.
- **A failed seek forgets a push-back.** The WavPack stream drops the pushed byte before it knows
  whether the seek succeeds, so after a failure the cursor is one byte on. `FollowsExactly`: a run
  looks like a plain cursor if and only if no seek fails behind a push-back.

The source's comments on the FLAC index (`modules/demux/flac/demux_flac.cpp:89-97, 287-300`) say one
point in 32 frames; the code counts 32 frames past and records the next, one in 33
(`OneInThirtyThree`).

## Model

| member | source | states |
|---|---|---|
| Delivery.NothingLost | modules/demux/ogg/demux_ogg.cpp:458-521 | under any schedule of buffers, the packets handed over and those still to come are exactly what an unlimited buffer gets, bytes, frame and timed flag |
| Delivery.ServedWhereItFits | include/mediaperch/module.h:705-725 | a packet goes to a buffer as large as it, or larger, and to no other; where it does not it is still the next, and only one of no bytes may fare otherwise |
| Delivery.NextCallFits | include/mediaperch/module.h:705-725 | each `MP_TOO_SMALL` states the size of the packet the next call hands to a buffer of that size |
| Delivery.CompleteIffSafe | modules/demux/ogg/demux_ogg.cpp:465-495 | a run to the end delivers everything under every schedule, if and only if no packet is both empty and forgettable |
| Delivery.LosingLoses | modules/demux/ogg/demux_ogg.cpp:487-496 | a schedule under which a demuxer that forgets empty packets reaches the end short of one |
| OggPages.NextPageIsMine | modules/demux/ogg/demux_ogg.cpp:130-162 | the next page is the next of this stream wherever others are interleaved, and it starts where the last ended |
| OggPages.MineAre | modules/demux/ogg/demux_ogg.cpp:130-162 | the pages of a stream are those of its serial number, in the order of the file, once each |
| OggPages.PagePacketsAre | modules/demux/ogg/demux_ogg.cpp:483-510 | the packets of a page are those that finish on it, bytes as they are and in order; the first states where the page starts, and no other a position |
| OggPages.ListingHolds | modules/demux/ogg/demux_ogg.cpp:483-510 | and page after page, every packet of the stream is listed |
| OggPages.RunIsListing | modules/demux/ogg/demux_ogg.cpp:480-521 | the reader hands over a prefix of the page-by-page listing, and all of it exactly when no packet lies behind 4,096 pages and holes |
| OggPages.PositionsExact | modules/demux/ogg/demux_ogg.cpp:138-144 | with truthful granules (section 6 of RFC 3533) every timed packet's frame plus what holes lost since the last granule is the sum of the durations of all packets before it |
| OggPages.TimedMeansExact | modules/demux/ogg/demux_ogg.cpp:500-508 | with no page lost, a timed packet's frame is that sum exactly |
| OggPages.HoleMakesPositionLate | modules/demux/ogg/demux_ogg.cpp:511-513 | a truthful file with a page lost whose timed packet says 100 where 150 is true |
| OggPages.StalledFileIsLost | modules/demux/ogg/demux_ogg.cpp:483-520 | a file whose one packet lies behind 4,096 pages on which none finishes is read as empty |
| OggSeek.SeekLands | modules/demux/ogg/demux_ogg.cpp:555-584 | a seek lands on the first page behind the headers that ends after the target, or finds every page before it, or has read a million |
| OggSeek.SeekFollowedBy | modules/demux/ogg/demux_ogg.cpp:575-584 | what follows is exactly the packets finishing on that page or later, if and only if reading out the pages before it left no packet in the queue |
| OggSeek.SeekFollowedExactly | modules/demux/ogg/demux_ogg.cpp:575-584 | in the file's terms, where a lost page is reported in front of the next one's packets: if and only if the last page read past is not one behind a lost page with a packet on it |
| OggSeek.SeekThenFirstPacket | modules/demux/ogg/demux_ogg.cpp:530-577 | with no page lost, the next packet is timed, starts at or before the target, carries its true start, and nothing between it and the end of the file is skipped |
| OggSeek.SeekBehindHole | modules/demux/ogg/demux_ogg.cpp:578-582 | in a truthful file with a lost page, a seek leaves an earlier page's packet first in line with the later page's time |
| OggSeek.LossyFileIsTruthful | modules/demux/ogg/demux_ogg.cpp:138-144 | that file's granules are truthful |
| OggSeek.ReadsOut | modules/demux/ogg/demux_ogg.cpp:564-582 | reading packets out, all or a number of them, ends at the first hole, which goes with them; what is behind it stays |
| OggSeek.OpenKeepsHeaders | modules/demux/ogg/demux_ogg.cpp:340-365 | opening keeps exactly the header packets, in order, and stops where the audio starts |
| OggSeek.OpenTakesFirst | modules/demux/ogg/demux_ogg.cpp:340-365 | on any file, opening takes the first packets there are, holes passed over, and fewer than wanted only at the end of the file or of its turns |
| OggDemux.Demux.constructor | modules/demux/ogg/demux_ogg.cpp:275-365 | the configuration is Vorbis's headers behind their lengths, FLAC's STREAMINFO, or the identification packet as it is; the reader stands where the header loop stops |
| OggDemux.ConfigReadBack | modules/demux/ogg/demux_ogg.cpp:275-311 | a configuration is one its codec reads: Vorbis's splits into its three headers and no others, FLAC's is the STREAMINFO its mapping wraps, any other's is the identification packet |
| OggDemux.Demux.ReadHeaders | modules/demux/ogg/demux_ogg.cpp:340-365 | the loop appends the framing of each Vorbis header read and keeps no other codec's, and is the header reader `OpenKeepsHeaders` speaks of |
| OggDemux.Demux.ReadPage | modules/demux/ogg/demux_ogg.cpp:130-162 | the loop over pages refines the next-page function |
| OggDemux.Demux.ReadPacket | modules/demux/ogg/demux_ogg.cpp:458-521 | one call serves the first packet to come, or keeps it and says its size; and it stays within the file's own listing |
| OggDemux.Demux.ReadAll | modules/demux/ogg/demux_ogg.cpp:458-521 | a whole run of calls is the run the delivery theorems speak of |
| OggDemux.Demux.Seek | modules/demux/ogg/demux_ogg.cpp:524-585 | the loops refine the seek `SeekLands` speaks of; nothing held back survives |
| OggDemux.Demux.SeekIsFaithful | modules/demux/ogg/demux_ogg.cpp:555-583 | after any seek in a file with no page lost, what is to come is a consecutive stretch of the whole file's packets |
| OggDemux.Demux.OpenIsFaithful | modules/demux/ogg/demux_ogg.cpp:340-365 | so it is after opening, from the first page behind the headers |
| MkvTime.FramesOfExact | modules/demux/mkv/demux_mkv.cpp:574-581 | the 64-bit split form is the floor of the full product whenever that fits |
| MkvTime.ToFramesExact | modules/demux/mkv/demux_mkv.cpp:309-315 | and the rounded form is the nearest, halves up |
| MkvTime.RemainderFits | modules/demux/mkv/demux_mkv.cpp:311-314 | the remainder product never wraps at any 32-bit rate |
| MkvTime.TargetNsExact | modules/demux/mkv/demux_mkv.cpp:1797-1803 | a seek's target in nanoseconds is the floor of the full quotient |
| MkvTime.ToFramesUndoesMuxing | modules/demux/mkv/demux_mkv.cpp:303-315 | rounding recovers the count a muxer truncated, if and only if no more than half was thrown away |
| MkvTime.ToFramesAtRealRates | modules/demux/mkv/demux_mkv.cpp:303-315 | which is so for every count and every rate up to 5 * 10^8 |
| MkvTime.ToFramesLosesAtHighRates | modules/demux/mkv/demux_mkv.cpp:303-315 | and not for one frame at 1.1 * 10^9 |
| MkvTime.FinishCues | modules/demux/mkv/demux_mkv.cpp:997-1010 | the index is the file's cues made absolute, stably sorted, with a point in front exactly where none is at zero; it points only at clusters |
| MkvTime.ChooseCue | modules/demux/mkv/demux_mkv.cpp:1804-1811 | the cue chosen is at or before the target, and no later one is |
| MkvTime.CueNeverLate | modules/demux/mkv/demux_mkv.cpp:1797-1811 | and its own frame never exceeds the one asked for |
| MkvWalk.WalkIsFile | modules/demux/mkv/demux_mkv.cpp:1033-1201 | exactly once: walking the flat elements of any segment, with elements of the segment or Voids anywhere between its clusters, gives the packets of the file; the next five rows say what those are |
| MkvWalk.FileInOrder | modules/demux/mkv/demux_mkv.cpp:1041-1055 | the packets of a file are those of its clusters, in order, and each cluster starts with no timestamp |
| MkvWalk.ClusterInOrder | modules/demux/mkv/demux_mkv.cpp:1057-1201 | those of a cluster are those of its elements, in order, each against the timestamp last stated in front of it |
| MkvWalk.ElementPackets | modules/demux/mkv/demux_mkv.cpp:1130-1161 | those of a block whose number some selected stream has, behind a timestamp, are its frames, all and in order, of a selected stream of that number, only the first with a position; any other element has none |
| MkvWalk.Choice.TrackOf | modules/demux/mkv/demux_mkv.cpp:557-566 | a block is given a stream exactly when a selected one has its number, and then such a one |
| MkvWalk.PositionExact | modules/demux/mkv/demux_mkv.cpp:574-581 | the position of a first frame is its time in nanoseconds for video, and for audio the frames begun by then |
| MkvWalk.StatedEndEnds | modules/demux/mkv/demux_mkv.cpp:1080-1086 | nothing at or behind the end a cluster states is read as part of it |
| MkvWalk.CutShort | modules/demux/mkv/demux_mkv.cpp:1088-1118 | a file cut short inside an element of a cluster is read no further |
| MkvWalk.ClusterWalk | modules/demux/mkv/demux_mkv.cpp:1057-1201 | a cluster of known or unknown size is walked child by child and then left, whatever its block groups run into |
| MkvWalk.WalkIsListing | modules/demux/mkv/demux_mkv.cpp:1033-1040 | a reader that gives up still hands over a prefix, and everything if and only if no frame lies behind 2^24 turns that find no block |
| MkvWalk.ReadsTheFile | modules/demux/mkv/demux_mkv.cpp:1033-1201 | so what a host can read of a segment is its packets exactly, under that condition and no other |
| MkvWalk.StalledSegmentIsLost | modules/demux/mkv/demux_mkv.cpp:1035-1035 | a cluster with 2^24 other elements in front of its block, whose packet is not handed over |
| MkvWalk.SmallFile | modules/demux/mkv/demux_mkv.cpp:1035-1035 | a file of fewer than 2^23 elements is always walked to the end |
| MkvWalk.SeekResumes | modules/demux/mkv/demux_mkv.cpp:1015-1028 | starting over at a cluster resumes the very walk that would have reached it: the whole listing is that of the elements in front of it and then what follows the seek |
| MkvWalk.SeekSkipsNothing | modules/demux/mkv/demux_mkv.cpp:1779-1825 | where no packet of a stream in front of the cluster is at or after the target, every one that is follows the seek, in its place |
| MkvDemux.Demux.constructor | modules/demux/mkv/demux_mkv.cpp:1394-1420 | after opening, the packets to come are those of the walk from the first cluster |
| MkvDemux.Demux.SelectStreams | modules/demux/mkv/demux_mkv.cpp:1689-1714 | accepts exactly non-empty lists of known, distinct streams and then walks from the first cluster; otherwise nothing changes |
| MkvDemux.Demux.RestartAt | modules/demux/mkv/demux_mkv.cpp:1015-1028 | nothing parked or in hand survives, and the walk starts at the cluster |
| MkvDemux.Demux.NextCluster | modules/demux/mkv/demux_mkv.cpp:1041-1055 | the next cluster is found from wherever an element was parked, with none skipped |
| MkvDemux.Demux.ReadBlock | modules/demux/mkv/demux_mkv.cpp:1100-1201 | what a block group ran into is parked in one place, the right one |
| MkvDemux.Demux.TakeChild | modules/demux/mkv/demux_mkv.cpp:1057-1201 | one turn is one step of the walk, element for element |
| MkvDemux.Demux.NextBlock | modules/demux/mkv/demux_mkv.cpp:1033-1201 | the search changes nothing of what is to come, and fails only when that is nothing |
| MkvDemux.Demux.HandOver | modules/demux/mkv/demux_mkv.cpp:1745-1775 | the lace in hand is served, refused when empty and stepped past, or left with its size stated |
| MkvDemux.Demux.ReadPacket | modules/demux/mkv/demux_mkv.cpp:1716-1776 | one call serves the first packet of the walk and no more |
| MkvDemux.Demux.ReadAll | modules/demux/mkv/demux_mkv.cpp:1716-1776 | a whole run is the run the delivery theorems speak of |
| MkvDemux.Demux.Seek | modules/demux/mkv/demux_mkv.cpp:1779-1825 | a seek puts the walk at the cluster of the latest cue at or before the target, in the stream's own units: nanoseconds for video, frames at its rate for audio; it refuses an unknown stream or no rate, and then moves nothing |
| Mp4Seek.RestatedNeverAbove | modules/demux/mp4/demux_mp4.cpp:709-728 | a time restated in another timescale is never above the exact ratio, wrap or not |
| Mp4Seek.RestatedBarelyBelow | modules/demux/mp4/demux_mp4.cpp:709-728 | and less than a second below it where the true result fits, exact where the product does |
| Mp4Seek.IndexForHolds | modules/demux/mp4/demux_mp4.cpp:730-748 | the sample looked up is the one whose decode interval holds the time; none, only past the end |
| Mp4Seek.NeverSkipsExactly | modules/demux/mp4/demux_mp4.cpp:730-748 | no seek puts a track past a sample presented at or after its target, if and only if no sample in front of the sync sample of another is presented as late as that one is decoded, with the reach on top |
| Mp4Seek.PlausibleIsCovered | modules/demux/mp4/demux_mp4.cpp:522-567 | which every track meets whose largest composition offset is shorter than the track |
| Mp4Seek.ReachIs | modules/demux/mp4/demux_mp4.cpp:522-567 | the reach is the largest composition offset of a track, if every one is shorter than the track, and nothing otherwise |
| Mp4Seek.PlacedNotEarly | modules/demux/mp4/demux_mp4.cpp:730-748 | a track is put at the sync sample of the sample being decoded at the target less the reach, or of its first where that is before its start; and at the beginning where it is past its end |
| Mp4Seek.Times | modules/demux/mp4/demux_mp4.cpp:1198-1203 | decode times are what `stts` adds up to, and a presentation time is the sample's own `ctts` entry later, where it has one |
| Mp4Seek.ZeroedReachSkips | modules/demux/mp4/demux_mp4.cpp:561-565 | a track with an offset as long as itself that does not, and the seek that skips |
| Mp4Demux.Stream.CompositionReach | modules/demux/mp4/demux_mp4.cpp:522-567 | the loop finds the largest composition offset, none if it is as long as the track, and the cache never changes the answer |
| Mp4Demux.Stream.SampleFor | modules/demux/mp4/demux_mp4.cpp:730-748 | the lookup is the one `NeverSkipsExactly` speaks of |
| Mp4Demux.ReadableHas | modules/demux/mp4/demux_mp4.cpp:653-701 | a reader hands out exactly the stored samples of enabled tracks from their places on |
| Mp4Demux.ReadableInOrder | modules/demux/mp4/demux_mp4.cpp:653-701 | in storage order and once each |
| Mp4Demux.Demux.PacketPresents | modules/demux/mp4/demux_mp4.cpp:1190-1206 | a packet's position is its sample's decode time and its `ctts` entry on top, or nothing where there is none; stream, bytes and sync are the sample's |
| Mp4Demux.Demux.DuePresents | modules/demux/mp4/demux_mp4.cpp:1198-1203 | a sample is due by a seek exactly when the position its packet states is at or after the target, each in its own timescale |
| Mp4Demux.Demux.Restart | modules/demux/mp4/demux_mp4.cpp:653-701 | a restart forgets the sample held and gives a fresh reader over the selected tracks; it fails only when there are none |
| Mp4Demux.Demux.SelectStreams | modules/demux/mp4/demux_mp4.cpp:1133-1156 | accepts exactly non-empty lists of known, distinct streams, and otherwise changes nothing |
| Mp4Demux.Demux.ReadPacket | modules/demux/mp4/demux_mp4.cpp:1159-1229 | one call serves the next sample or the one held, position its presentation time |
| Mp4Demux.Demux.ReadAll | modules/demux/mp4/demux_mp4.cpp:1159-1229 | a whole run is the run the delivery theorems speak of |
| Mp4Demux.Demux.Seek | modules/demux/mp4/demux_mp4.cpp:1232-1274 | every sample due at or after the target is still to be handed over, of every selected track that never skips; and each track is put where `SampleFor` says |
| FlacDemux.PacketsAreTrue | modules/demux/flac/demux_flac.cpp:504-512 | counting up by block sizes gives every packet its true first sample |
| FlacDemux.EndToEnd | modules/demux/flac/demux_flac.cpp:504-512 | frames lie end to end in bytes, and each starts where the samples of the one before it end |
| FlacDemux.OnePlace | modules/demux/flac/demux_flac.cpp:279-288 | a byte offset is the beginning of at most one frame |
| FlacDemux.Demux.constructor | modules/demux/flac/demux_flac.cpp:380-387 | the index is the truthful seek table, placeholders dropped, with a point at sample zero; every point of it is true |
| FlacDemux.AbsoluteKeeps | modules/demux/flac/demux_flac.cpp:380-387 | every point of the table that is no placeholder is kept, in the table's order and once |
| FlacDemux.Demux.Remember | modules/demux/flac/demux_flac.cpp:290-300 | the index only grows, and only by true points, when the count since the last is used up and the point is past its end |
| FlacDemux.NotedGrows | modules/demux/flac/demux_flac.cpp:290-300 | a frame adds its own point at the end, if and only if the count is used up and it is past the end of the index; nothing recorded is lost |
| FlacDemux.File.IndexGrows | modules/demux/flac/demux_flac.cpp:290-300 | over every run of reads and seeks the index before it is the front of the index after it |
| FlacDemux.OneInThirtyThree | modules/demux/flac/demux_flac.cpp:287-300 | frames read in order past the end of the index leave it exactly every 33rd of their points |
| FlacDemux.EveryStrideAt | modules/demux/flac/demux_flac.cpp:287-300 | which are those 33 apart |
| FlacDemux.Demux.ReadPacket | modules/demux/flac/demux_flac.cpp:457-516 | one call serves the next frame at its true first sample, or puts libFLAC back in front of it and states its size |
| FlacDemux.Demux.Seek | modules/demux/flac/demux_flac.cpp:519-543 | a seek lands on the greatest indexed sample at or before the target, where that frame begins |
| FlacDemux.Demux.Drive | modules/demux/flac/demux_flac.cpp:457-543 | over any run of reads, reads that do not fit and seeks, every call answers what the frame stood at and the index say, and leaves both as they should be |
| FlacDemux.File.CallMoves | modules/demux/flac/demux_flac.cpp:457-543 | one call of such a run: a seek goes to the greatest indexed sample at or before its target, a read goes on by one frame, a read that does not fit moves nothing |
| FlacDemux.File.AnswersAreTrue | modules/demux/flac/demux_flac.cpp:457-543 | and every packet it hands over is one of the file's, at the sum of the block sizes of the frames before it |
| FlacDemux.Demux.ReadAll | modules/demux/flac/demux_flac.cpp:457-516 | a whole run of reads is the run the delivery theorems speak of |
| Kraft.CompleteExactly | tools/gen_aac_tables.py:102-104 | every bit string as long as the longest codeword starts with exactly one codeword, if and only if the book passes the check and is prefix-free |
| Kraft.BookMeansComplete | tools/gen_aac_tables.py:144-160 | so it is of any table of codes and lengths of the size declared |
| Kraft.KraftInequality | tools/gen_aac_tables.py:102-104 | no prefix-free book shares out more than the whole |
| Kraft.CompleteCodesPass | tools/gen_aac_tables.py:30-32 | every complete prefix code, of any size and in any order, passes |
| Kraft.DroppingFails | tools/gen_aac_tables.py:30-32 | dropping any entries from a table that passes makes it fail |
| Kraft.KraftAloneIsNotEnough | tools/gen_aac_tables.py:102-104 | a book that passes, is not prefix-free and leaves strings without a codeword |
| VorbisHeaders.SplitHeaders | modules/codec/vorbis/codec_vorbis.cpp:82-106 | accepts exactly the blobs that start with the framing of three non-empty headers, finds each, and never looks outside |
| VorbisHeaders.ReadLace | modules/demux/mkv/demux_mkv.cpp:216-228 | reads one lacing length, and refuses only where none is |
| VorbisHeaders.VorbisConfig | modules/demux/mkv/demux_mkv.cpp:209-244 | accepts exactly the blobs that lace three packets (section 10.3 of RFC 9559) and gives their framing |
| VorbisHeaders.FrameParts | modules/demux/mkv/demux_mkv.cpp:234-242 | the packets one after another become their framing |
| VorbisHeaders.PushLength | modules/demux/ogg/demux_ogg.cpp:280-283 | the low four bytes of a length, low first |
| VorbisHeaders.Assemble | tools/make_codec_seeds.py:84-91 | the writer's blob is the framing of its headers |
| VorbisHeaders.FramedUnique | modules/codec/vorbis/codec_vorbis.cpp:82-106 | a blob frames at most one list of headers, whatever follows |
| VorbisHeaders.XiphUnique | modules/demux/mkv/demux_mkv.cpp:216-232 | a blob laces at most one list of three |
| VorbisHeaders.ThroughMatroska | modules/demux/mkv/demux_mkv.cpp:209-244 | laced, converted and split, any three non-empty headers come back |
| VorbisHeaders.ThroughFraming | modules/codec/vorbis/codec_vorbis.cpp:82-106 | and so they do framed directly, as Ogg and the seed tool do |
| OggLacing.OggPackets | tools/make_codec_seeds.py:64-81 | the loops read any bytes as the recursive parse does, and end |
| OggLacing.LacingRoundTrip | tools/make_codec_seeds.py:64-81 | any packets of any lengths, their segments split into pages in any way, are read back exactly (sections 5 and 6 of RFC 3533) |
| OggLacing.ParsesPages | tools/make_codec_seeds.py:64-81 | pages that leave a packet open are joined with the next |
| CodecSeeds.Seed | tools/make_codec_seeds.py:27-38 | the writer's bytes are selector, configuration, packets and one byte more |
| CodecSeeds.ReadPackets | fuzz/codec_fuzzer.cpp:160-168 | the loop ends with slices in order, disjoint and inside the input, at most 256 and none empty, that hold what the parse says |
| CodecSeeds.ReadInput | fuzz/codec_fuzzer.cpp:91-127 | and so does the whole reader, on any input |
| CodecSeeds.PacketsReadBack | fuzz/codec_fuzzer.cpp:160-168 | the packets written are read back, empty ones aside, each cut to 65,535 bytes, up to the limit |
| CodecSeeds.SeedReadBack | tools/make_codec_seeds.py:27-38 | reading a seed gives back its selector, configuration and first 256 non-empty packets; the last byte makes none |
| CodecSeeds.NonEmptyKeeps | fuzz/codec_fuzzer.cpp:160-168 | leaving out the empty packets leaves out nothing of the others |
| StreamInfo.WriteInfo | modules/demux/flac/demux_flac.cpp:221-246 | the 34 bytes stored in place are those of section 8.2 of RFC 9639 |
| StreamInfo.InfoLayout | modules/demux/flac/demux_flac.cpp:221-246 | read field by field at their places, those bytes are the numbers written |
| StreamInfo.InfoRoundTrip | modules/codec/flac/codec_flac.cpp:80-94 | rate, channels and depth of every legal stream are read back unchanged, and the total is there |
| StreamInfo.RefusedExactly | modules/codec/flac/codec_flac.cpp:80-94 | a written configuration is refused exactly when it states no rate or fewer than four bits |
| StreamInfo.FlacConfig | modules/demux/mkv/demux_mkv.cpp:252-281 | the walk over metadata blocks ends on any bytes, and is the search `FindsFirst` speaks of |
| StreamInfo.FindsFirst | modules/demux/mkv/demux_mkv.cpp:257-280 | from any list of blocks it takes the first STREAMINFO among the first 64, whatever follows |
| StreamInfo.ThroughMatroska | modules/demux/mkv/demux_mkv.cpp:252-281 | written, wrapped among other blocks, converted and read, a STREAMINFO says what it said |
| StreamInfo.OggConfig | modules/demux/ogg/demux_ogg.cpp:285-299 | Ogg's mapping packet gives back the STREAMINFO inside it |
| SamplePacking.Interleave | modules/codec/flac/codec_flac.cpp:165-185 | writes exactly `frames * channels * bytes` bytes, sample by sample, and nothing else |
| SamplePacking.InterleaveAs | modules/codec/flac/codec_flac.cpp:186-201 | whichever count it is compiled for, the first `channels` planes are packed, whatever planes there are behind them |
| SamplePacking.Decode.Write | modules/codec/flac/codec_flac.cpp:203-255 | a frame of the stream's own shape is packed behind what is there; one of another fails the packet; one too large, or with nowhere to go, is measured; and a refusal writes nothing |
| SamplePacking.PackingIsLossless | modules/codec/flac/codec_flac.cpp:165-185 | a container read back sign-extended and shifted down is the sample |
| SamplePacking.DepthFits | modules/codec/flac/codec_flac.cpp:229-253 | a sample of the stream's depth fits the container chosen for it |
| SamplePacking.EverySampleComesBack | modules/codec/flac/codec_flac.cpp:165-201 | every sample of every channel can be read back from its slot |
| SamplePacking.LowBytes | modules/demux/wavpack/demux_wavpack.cpp:207-216 | writes the low bytes of every word in order, and nothing else |
| SamplePacking.NarrowingIsLossless | modules/demux/wavpack/demux_wavpack.cpp:207-216 | a word that fits is recovered from them |
| SamplePacking.EveryWordComesBack | modules/demux/wavpack/demux_wavpack.cpp:207-216 | and every word that fits is read back from its own slot |
| Rechunk.NoFrameLost | modules/demux/mf/demux_mf.cpp:520-559 | whatever the buffers, what was given and the whole frames to come are the longest whole-frame prefix of the stream |
| Rechunk.ReadFillsRoom | modules/demux/mf/demux_mf.cpp:520-559 | a read gives as many whole frames as the buffer and the stream both have; it has no room exactly for less than a frame, and is at the end exactly with less than one left |
| Rechunk.EndIsForEver | modules/demux/mf/demux_mf.cpp:555-559 | once a buffer of a frame has met the end, every later one does |
| Rechunk.MfReader.Refill | modules/demux/mf/demux_mf.cpp:467-518 | skips gaps and empty samples, loses nothing, and fails only at the end |
| Rechunk.SourceJoins | modules/demux/mf/demux_mf.cpp:467-518 | the stream is what its samples hold one after another: a gap is no bytes of it, and nothing from where it stops is |
| Rechunk.MfReader.ReadFrames | modules/demux/mf/demux_mf.cpp:520-559 | one call is the deal `NoFrameLost` speaks of, whatever sizes the samples have |
| Rechunk.MfReader.ReadAll | modules/demux/mf/demux_mf.cpp:520-559 | and a run of calls is its run |
| Rechunk.PipeReadGets | modules/demux/ffmpeg/demux_ffmpeg.cpp:198-212 | however the bytes come, a read gets all it asked for, up to the end or the first empty write |
| Rechunk.FfmpegReader.Read | modules/demux/ffmpeg/demux_ffmpeg.cpp:198-212 | the loop of short reads refines that read |
| Rechunk.FfmpegReader.ReadFrames | modules/demux/ffmpeg/demux_ffmpeg.cpp:676-711 | a first read starts the child, and fails where it does not start; then whole frames out, the position counted up, the end remembered, and nothing of a child that is not running |
| Rechunk.FfmpegReader.StartAt | modules/demux/ffmpeg/demux_ffmpeg.cpp:338-362 | a seek starts a child of its own, forgets the end and counts from the frame asked for |
| Rechunk.FfmpegReader.ReadAll | modules/demux/ffmpeg/demux_ffmpeg.cpp:676-711 | a run of calls is the run `PipeKeepsExactly` speaks of |
| Rechunk.UnbrokenKeeps | modules/demux/ffmpeg/demux_ffmpeg.cpp:676-711 | a run over an unbroken pipe gives what the bytes laid end to end would |
| Rechunk.PipeKeepsExactly | modules/demux/ffmpeg/demux_ffmpeg.cpp:198-212 | so it does under every schedule, if and only if no whole frame ends behind an empty write |
| Rechunk.BrokenLoses | modules/demux/ffmpeg/demux_ffmpeg.cpp:206-208 | and otherwise one buffer is enough to lose a frame |
| WavPackStream.FollowsExactly | modules/demux/wavpack/demux_wavpack.cpp:83-153 | over any run, a client that asks hears what a plain cursor says, if and only if no seek fails behind a push-back |
| WavPackStream.SettledAnswers | modules/demux/wavpack/demux_wavpack.cpp:83-153 | and then every answer is a plain cursor's |
| WavPackStream.ReadsCompose | modules/demux/wavpack/demux_wavpack.cpp:88-107 | on a plain cursor two reads are one of both |
| WavPackStream.PushUndoes | modules/demux/wavpack/demux_wavpack.cpp:138-142 | there a push-back undoes the read of a byte |
| WavPackStream.SeeksCompose | modules/demux/wavpack/demux_wavpack.cpp:121-136 | and relative seeks add up, agree with absolute ones and fail only in front of the file |
| WavPackStream.Stream.IoRead | modules/demux/wavpack/demux_wavpack.cpp:88-107 | the pushed byte first and the file behind it, which is a read at the cursor |
| WavPackStream.Stream.IoGetPos | modules/demux/wavpack/demux_wavpack.cpp:114-119 | the cursor, push-back counted |
| WavPackStream.Stream.IoSetPosAbs | modules/demux/wavpack/demux_wavpack.cpp:121-126 | the cursor moved; one byte on if it failed behind a push-back |
| WavPackStream.Stream.IoSetPosRel | modules/demux/wavpack/demux_wavpack.cpp:128-136 | the same from any origin, the pushed byte not counted as consumed |
| WavPackStream.Stream.IoPushBack | modules/demux/wavpack/demux_wavpack.cpp:138-142 | any byte is kept in place of what was; the byte just read, once, puts the cursor one back |
| WavPackStream.Stream.IoGetLength | modules/demux/wavpack/demux_wavpack.cpp:144-153 | the length, with the cursor where it was |
| WavPackStream.Stream.Drive | modules/demux/wavpack/demux_wavpack.cpp:83-153 | any run of proper calls gives a plain cursor's answers while no seek fails behind a push-back |
| Dav1dCodec.Codec.Push | modules/codec/dav1d/codec_dav1d.cpp:137-147 | exactly what dav1d takes leaves for it; input is given up if and only if dav1d fails with some of it left |
| Dav1dCodec.TakenAndLeft | modules/codec/dav1d/codec_dav1d.cpp:137-147 | dav1d takes the front, as much as it says, and the rest is left, unless it fails |
| Dav1dCodec.Codec.DecodePacket | modules/codec/dav1d/codec_dav1d.cpp:384-407 | a packet is accepted whole behind everything before it, or not at all: busy exactly when input is left over, and nothing lost but by a send that fails with input left |
| Dav1dCodec.Codec.NextPicture | modules/codec/dav1d/codec_dav1d.cpp:409-460 | the last picture goes back before the next is taken; each is released once, in order |
| Dav1dCodec.Codec.Reset | modules/codec/dav1d/codec_dav1d.cpp:474-497 | nothing pending survives, and the configuration is accepted again |
| Dav1dCodec.Codec.Drive | modules/codec/dav1d/codec_dav1d.cpp:384-472 | over any run, whatever dav1d does: the answers are those of the calls, the accepted packets are those answered so, the pictures handed out are those it made, and dav1d was given or has pending every accepted byte, in order and once, if and only if no send of the run fails with input left |
| Dav1dCodec.AnswerMeans | modules/codec/dav1d/codec_dav1d.cpp:384-425 | busy means input left over, no memory means none but that, accepted means neither; nothing yet is not a bad frame |
| Dav1dCodec.WorkingLosesNothing | modules/codec/dav1d/codec_dav1d.cpp:137-147 | no send drops input while dav1d only takes it or asks to be drained, however little it takes at a time |
| Dav1dCodec.DrainsAway | modules/codec/dav1d/codec_dav1d.cpp:384-472 | what is pending is gone after as many requests for pictures as it has bytes, if dav1d takes a byte of each offer |
| Dav1dCodec.AcceptedIsOffered | modules/codec/dav1d/codec_dav1d.cpp:397-406 | an accepted packet is offered before the call returns, and what dav1d does not take of it is pending |
| Dav1dCodec.AcceptedAndLost | modules/codec/dav1d/codec_dav1d.cpp:397-406 | a run of one packet, accepted and two thirds lost |
| De265Codec.Codec.NextFrame | modules/codec/de265/codec_de265.cpp:435-508 | the last picture is released and libde265 run until there is a picture, an error, or nothing further to do; the picture handed out is the head of the queue |
| De265Codec.PumpStops | modules/codec/de265/codec_de265.cpp:453-484 | it stops at the first step that makes a picture, fails or has nothing behind it, and not before: an end with steps left means the last one said there was no more, or did not go well |
| De265Codec.PumpDelivers | modules/codec/de265/codec_de265.cpp:458-484 | one such run hands out at most the first picture not handed out yet and keeps the others in order; an end means the queue is empty |
| De265Codec.Codec.Drive | modules/codec/de265/codec_de265.cpp:413-508 | over any run of packets and of asking for pictures, every answer, every unit pushed and every picture handed out is that of the calls |
| De265Codec.Wrapper.RunDelivers | modules/codec/de265/codec_de265.cpp:435-508 | nothing is lost, repeated or reordered: the pictures waiting and the pictures made are those handed out and those waiting after |
| De265Codec.Wrapper.EndMeansAll | modules/codec/de265/codec_de265.cpp:435-508 | an end, anywhere in a run, means every picture made so far has been handed out |
| De265Codec.Codec.Release | modules/codec/de265/codec_de265.cpp:119-125 | the picture in hand is released from the head of the queue, once |
| De265Codec.Codec.Reset | modules/codec/de265/codec_de265.cpp:522-533 | the queue is emptied and the parameter sets go in again, up to one libde265 refuses |
| De265Codec.Codec.Open | modules/codec/de265/codec_de265.cpp:282-342 | no codec where libde265 refuses a parameter set |
| De265Codec.Codec.PushSample | modules/codec/de265/codec_de265.cpp:217-246 | the walk pushes exactly the units the sample holds, and stops at the first that does not fit, is shorter than its header, or libde265 refuses |
| De265Codec.Codec.Decode | modules/codec/de265/codec_de265.cpp:413-432 | the parameter sets go in front of every sample, and an error anywhere ends it |
| De265Codec.OfferMeans | modules/codec/de265/codec_de265.cpp:181-214 | what is pushed is the units in order up to the first shorter than its header or refused, all exactly where there is none |
| De265Codec.PushedMeans | modules/codec/de265/codec_de265.cpp:413-432 | where nothing is refused, a packet is accepted exactly when its units fill it and none, nor any parameter set, is shorter than its header; and then the sets go in front of the units |
| De265Codec.UnitsRoundTrip | modules/codec/de265/codec_de265.cpp:217-246 | units behind their lengths are walked back into exactly those, empty ones aside |
| De265Codec.AcceptedMeansPrefixed | modules/codec/de265/codec_de265.cpp:217-246 | nothing else is accepted |

## Left out

- Mp4Demux.Demux.Seek: promises nothing of a track of which NeverSkipsExactly says some seek skips.
- MkvDemux.Demux.constructor: walking to the end of the file for `stream_info` is not modelled.
- OggDemux.Demux.constructor: the rate, channel count and pre-skip read out of the identification packet are not modelled.
- OggSeek.SeekFollowedExactly: takes it of libogg that a lost page is reported in front of what the next page finishes.
- Rechunk.FfmpegReader.StartAt: the command line and the time it seeks to are not modelled, nor is a change of stream.
- Libraries: libebml, libmatroska, Bento4, libogg, libFLAC, libwavpack, dav1d, libde265, Media Foundation and FFmpeg are scripts; only what a call site relies on is stated.
- Files, handles, child processes, COM, logging, threads, vtables: a read or seek the code treats as successful succeeds.
- MpPacket::stream for Ogg: a packet handed over directly leaves it as the host set it; the model writes 0.
- VorbisHeaders.SplitHeaders: takes blobs below 4 GiB, which the 32-bit size it is called with already means.
- Fragmented MP4: a seek there is delegated to Bento4; its read errors other than the end are not modelled.
- CodecSeeds.ReadInput: reads the two bytes of a length left to right, which C++ leaves to the compiler.
- CodecSeeds.Seed: takes a configuration of at most 65,535 bytes, the most its length field states; the tool itself fails on a longer one.
- WavPackStream.Stream.Drive: positions are unbounded; a 64-bit offset that overflows is not modelled.
- demux_mpa: its `at_end` is set before the last frame is delivered, so it does not meet the delivery contract for that frame.
- Matroska attachments, tags, chapters and track headers; MP4 and FLAC metadata other than STREAMINFO.
- Pixel formats, HDR metadata, thread counts and `codec_set` of the video wrappers.
- Probes, format tables, the command line, the shell and the impulse and noise-shaper generators, which are floating point or finite facts.
