# Verification of the Spresense example algorithms

Dafny models of the self-contained algorithms in the Spresense SDK examples, with proofs of what each
of them promises over all inputs and all runs. Where the code does not keep a promise on every input, the
exact condition under which it does is proved instead.

`dafny verify dfyconfig.toml` checks the whole project.

| file | what it models |
|---|---|
| `AtLine.dfy` | the GNSS AT-command emulator's loop: reads of any size become command lines |
| `AtCommand.dfy` | one command line: upper-casing and `strtok` splitting in place, first-match dispatch, shutdown code |
| `AtFrame.dfy` | checksummed binary frames, chunked reassembly, orbital data in and out |
| `AtSync.dfy` | the emulator thread and its sub-thread over one semaphore, as a state machine |
| `DualPlayers.dfy` | two players filling FIFOs while decoders drain them: state machine over all interleavings, and the thread's code |
| `Recorder.dfy` | the recorder draining a FIFO into a file with a size header |
| `RcFilter.dfy`, `Scan.dfy` | the int16 stereo RC filter with state kept between buffers |
| `JpegRaster.dfy` | tiles and scanlines written to the output file |
| `Colour.dfy` | YUV 4:2:2 to RGB565 inside one buffer |
| `FwPackage.dfy` | a firmware package stream handed to the updater in chunks |
| `AsyncRing.dfy` | asynchronous DSP requests in a ring of argument slots |
| `Planar.dfy` | image bytes rearranged into colour planes |
| `CArith.dfy` | C's truncating division and narrow stores |

Threads, peers and devices are steps or parameters: a read returns any legal number of bytes, a decoder takes and a
producer adds any amount between two steps, handlers, downloads, allocations and sends succeed or fail as given.

## What the code does that its promise does not cover

- A frame's length is narrowed to `int16_t` before summing, so a corrupted payload byte is caught up to 32763 payload
  bytes and never from 32764 on (`AtFrame.CorruptionCaughtIff`); the round trip itself holds for every payload
  up to 65535 bytes (`AtFrame.OrbitalRoundTripIff`).
- Bytes behind a terminator in the same read are dropped, and lines of more than 127 characters are cut: reads give
  exactly the lines of a stream if and only if these fit and no read crosses a terminator (`AtLine.ChunkingIff`).
- A filter call that finds both saved levels zero reseeds, so two calls equal one call exactly when the first does not
  end in silence or the reseeding is invisible (`RcFilter.SplitIff`).
- Input up to 3299 keeps the filter monotone and its int16 stores exact from every level; at level 32767 the sample
  3300 wraps the output to -32768 (`RcFilter.LevelMonotoneIff`, `RcFilter.NeverWrapsIff`,
  `RcFilter.LoudestWraps`).
- Tiles are written with a fixed pitch of 320 pixels, so they rebuild the image exactly when it is 320 wide or the
  tiles are one line high (`JpegRaster.TilesMakeRasterIff`). The comment at `jpeg_decode_main.c:377` says the file is
  initialised with its full size; a seek alone does not extend it, and the model follows the code.
- `download()` codes of all but the last chunk of an image are ignored, so an update can start with a chunk lost
  (`FwPackage.ChunkLost`). A positive last code would end the download but still start the update
  (`FwPackage.UpdateForEveryFile`), even when a broken record lies ahead (`FwPackage.BrokenRecordIff`,
  `FwPackage.BrokenRecordMissed`); the repository's own client (`fwup_client.c:131-144`) returns 0 or -1 only, and with
  such codes a broken record always stops the update (`FwPackage.BrokenRecordStopsUpdate`).
- A failed send uses up a ring slot, so the number of outstanding requests alone does not protect their arguments
  (`AsyncRing.FailedSendsOverwrite`); with requests that all differ, delivery is as sent exactly if every
  read comes while at most k builds, its own included, were made (`AsyncRing.DeliveredInOrderIff`).
- `pnm_load` refuses output buffers of more than 784 floats but never compares the image with the output: a body of n
  bytes is written inside an output of m floats exactly if n is at most m, for every file exactly if m is at least 784
  (`Planar.RoomIff`).
- Two-byte colour samples are separated byte by byte, so planes then mix colours (`Planar.PlanesPureIff`).
- After a poll failure the emulator posts once more than it waited; mutual exclusion survives, the token count does
  not (`AtSync.TokenCount`). If the first `set_signal` fails, no command is executed any more
  (`AtSync.DeadHoldStopsCommands`); this and a failed open are the only ways to get stuck (`AtSync.StuckIff`).
- The last of every 128 characters of an overlong line is overwritten by the NUL (`AtLine.AlignedReads`). A read that
  fills the buffer is not scanned, so a terminator in it stays inside the line (`AtLine.KeptRunIff`).
- On an orderly shutdown the sub-thread turns its signals off on a descriptor the emulator has closed
  (`AtSync.ClosedDescriptorIff`, `AtSync.OrderlyShutdown`).
- The recorder counts requested, not written, bytes (`Recorder.Record`).

## Model

| member | source | states |
|---|---|---|
| AtLine.ChunkingIff | examples/gnss_atcmd/gnss_atcmd_main.c:399-478 | for any legal reads, the lines handed over and the text left are those of the stream if and only if every line fits the 128-byte buffer and no read has a terminator before its last byte |
| AtLine.AlignedReads | examples/gnss_atcmd/gnss_atcmd_main.c:437-478 | reads of any stream that cross no terminator, from any partly filled buffer and wherever they end, hand over the stream cut at its first terminator or, if a line is longer, after 127 characters with the 128th lost |
| AtLine.CutIsLinesIff | examples/gnss_atcmd/gnss_atcmd_main.c:443-466 | that cutting gives the lines of the stream exactly if all of them fit |
| AtLine.FittingReadsAreLegal | examples/gnss_atcmd/gnss_atcmd_main.c:437-443 | with lines that fit, such reads never exceed the room left |
| AtLine.NothingLost | examples/gnss_atcmd/gnss_atcmd_main.c:444-466 | conversely, if every byte is accounted for and no line contains a terminator, no read crossed one |
| AtLine.KeptRunIff | examples/gnss_atcmd/gnss_atcmd_main.c:437-478 | for every legal sequence of reads: of each read what counts is the part up to its first terminator, or all of it if it fills the buffer; the lines handed over are those of what counts, cut to the buffer, if and only if no read that fills the buffer has a terminator before its last place |
| AtLine.LineOfReads | examples/gnss_atcmd/gnss_atcmd_main.c:437-478 | any number of reads without terminator, then one that has one or fills the buffer: they complete the line before the first terminator or, unscanned, of 127 characters, and the next one starts with an empty buffer |
| AtLine.OpenReads | examples/gnss_atcmd/gnss_atcmd_main.c:444-462 | reads without terminator that leave room complete no line and stay in the buffer |
| AtLine.OneRead | examples/gnss_atcmd/gnss_atcmd_main.c:447-467 | a line, CR, LF or NUL, and anything behind it in one read: exactly the line is handed over |
| AtLine.StreamServed | examples/gnss_atcmd/gnss_atcmd_main.c:402-480 | end to end, for every legal sequence of reads: each line they complete is executed once, in order, up to and including the first exit line and none after it, with handlers that may answer equal lines differently; the lines are those of KeptRunIff |
| AtLine.Emulator.constructor | examples/gnss_atcmd/gnss_atcmd_main.c:399-400 | the buffer starts empty with all 128 bytes free |
| AtLine.Emulator.OnReadable | examples/gnss_atcmd/gnss_atcmd_main.c:437-478 | one readable turn: buffered text and executed line are those of the assembly rule, at most one line per read; used plus free bytes are 128 before and after |
| AtLine.Emulator.Emulate | examples/gnss_atcmd/gnss_atcmd_main.c:402-480 | the loop answers every completed line in order and stops at the first shutdown code, whatever mix of idle turns, failed reads and chunks it meets, and however the handlers answer from line to line |
| AtCommand.ToUpperLine | examples/gnss_atcmd/gnss_atcmd_parser.c:115-122 | among the first `size` characters each lower-case letter becomes the same letter in upper case, in place, so that none is left; everything else is untouched |
| AtCommand.CaseIgnored | examples/gnss_atcmd/gnss_atcmd_parser.c:1054-1106 | lines that differ in letter case only get the same reply |
| AtCommand.StrTok | examples/gnss_atcmd/gnss_atcmd_parser.c:124-137 | one step of `strtok`: the next word is NUL-terminated in place, nothing outside the scanned stretch changes, the untouched tail holds exactly the remaining words |
| AtCommand.TokenLine | examples/gnss_atcmd/gnss_atcmd_parser.c:124-137 | the returned pointers stand at the words of the line, in order, each NUL-terminated, for up to eight words |
| AtCommand.TokensOfLayout | examples/gnss_atcmd/gnss_atcmd_parser.c:124-137 | splitting undoes every layout of words with any number of spaces |
| AtCommand.FirstMatch | examples/gnss_atcmd/gnss_atcmd_parser.c:1071-1079 | the first entry that agrees with the name in four characters is taken; none before it agrees |
| AtCommand.GnssAtcmdExec | examples/gnss_atcmd/gnss_atcmd_parser.c:1054-1106 | executing a line in its own buffer gives the reply determined by its text: silence, done, or an error code |
| AtCommand.HandlerRunsIff | examples/gnss_atcmd/gnss_atcmd_parser.c:1071-1094 | what a handler returns makes a difference exactly if the line starts with `@`, its name agrees with a handler's entry and with none before, and the argument count is that entry's; then a nonzero code is reported |
| AtCommand.Refusals | examples/gnss_atcmd/gnss_atcmd_parser.c:1066-1083 | no reply exactly without a leading `@`, -ENOENT for an unknown name, -EINVAL for a wrong number of arguments |
| AtCommand.ShutdownIff | examples/gnss_atcmd/gnss_atcmd_parser.c:1085-1094 | the shutdown code is returned exactly for a received line whose only word starts with `@AEXT` in any letter case, whatever the drivers return |
| AtCommand.ShadowedEntry | examples/gnss_atcmd/gnss_atcmd_parser.c:1036-1044 | the second `LEMG` entry can never be selected |
| AtFrame.CalcChecksum | examples/gnss_atcmd/gnss_atcmd_parser.c:139-151 | the loop returns the byte sum modulo 65536 of as many bytes as the narrowed length allows, and its 32-bit accumulator cannot wrap |
| AtFrame.CheckHeadfoot | examples/gnss_atcmd/gnss_atcmd_parser.c:170-200 | which of the four codes is returned for a buffer whose declared length lies inside it |
| AtFrame.CheckOutcome | examples/gnss_atcmd/gnss_atcmd_parser.c:170-200 | all four outcomes: -EINVAL exactly without the first magic byte, then -EFBIG exactly without the last, -EAGAIN exactly for a flagged frame with another sum, and otherwise acceptance |
| AtFrame.AcceptedIff | examples/gnss_atcmd/gnss_atcmd_parser.c:170-200 | up to 32763 bytes a flagged frame is accepted exactly when both magic bytes are there and the byte sum is congruent to the stored sum |
| AtFrame.SetHeadfoot | examples/gnss_atcmd/gnss_atcmd_parser.c:202-216 | header and footer are set in place around an untouched payload, with the sum over header and payload |
| AtFrame.FrameLayout | examples/gnss_atcmd/gnss_atcmd_parser.c:202-216 | the frame byte by byte: magic, flag and length high byte first, the payload, the sum high byte first, a zero and magic |
| AtFrame.OwnFrameAccepted | examples/gnss_atcmd/gnss_atcmd_parser.c:170-216 | a frame just built is accepted for every 16-bit size |
| AtFrame.CorruptionCaughtIff | examples/gnss_atcmd/gnss_atcmd_parser.c:139-216 | a single changed payload byte is answered by -EAGAIN exactly if it lies in the part the narrowed length covers: always up to 32763 payload bytes, never from 32764 on |
| AtFrame.ReadyRead | examples/gnss_atcmd/gnss_atcmd_parser.c:218-258 | the buffer holds the incoming bytes in order up to the point reached; success means it is full |
| AtFrame.ChunksDoNotMatter | examples/gnss_atcmd/gnss_atcmd_parser.c:231-254 | however the bytes are cut into reads, all that was wanted arrives |
| AtFrame.GetOrbitaldata | examples/gnss_atcmd/gnss_atcmd_parser.c:315-352 | the bytes that go out are those of the frame around the driver's payload, as many as write() takes, or nothing on a failure of malloc, ioctl or write |
| AtFrame.SetOrbitaldata | examples/gnss_atcmd/gnss_atcmd_parser.c:271-313 | the driver is handed the payload part only after complete reception and an accepted check |
| AtFrame.OrbitalRoundTripIff | examples/gnss_atcmd/gnss_atcmd_parser.c:202-355 | an emitted frame sent back in any reads is accepted, and the driver gets its own payload back exactly when the payload fits 16 bits of length or the misplaced footer equals what it overwrites |
| AtFrame.CorruptedNeverStored | examples/gnss_atcmd/gnss_atcmd_parser.c:271-313 | a frame of up to 32763 payload bytes with one of them changed, sent back in any reads, is answered by -EAGAIN and never reaches the driver |
| AtSync.NeverOverlap | examples/gnss_atcmd/gnss_atcmd_main.c:395-611 | in every run, failures included, no command executes while the sub-thread is in a critical section, the connection record is read only after it was set, and the semaphore outlives the sub-thread |
| AtSync.TokenCount | examples/gnss_atcmd/gnss_atcmd_main.c:408-484 | from the first post on, the semaphore and its holders sum to one, and to two only once the loop was left by a poll failure |
| AtSync.RunKeepsInv | examples/gnss_atcmd/gnss_atcmd_main.c:395-611 | every interleaving of the two threads keeps the token accounting and the program-point facts |
| AtSync.StuckIff | examples/gnss_atcmd/gnss_atcmd_main.c:395-618 | over every run, no thread can move without a failure exactly when all is over, or the emulator waits for a token that died with the sub-thread, or it joins a sub-thread waiting for a token that was never posted |
| AtSync.DeadHoldStopsCommands | examples/gnss_atcmd/gnss_atcmd_main.c:546-553 | after a failed first set_signal no run ever executes a command again |
| AtSync.JoinStarvedIff | examples/gnss_atcmd/gnss_atcmd_main.c:506-513 | while the emulator joins, the sub-thread finds the semaphore empty exactly if the emulator never posted |
| AtSync.DataIsPrinted | examples/gnss_atcmd/gnss_atcmd_main.c:567-603 | in every run without a failing wait of the sub-thread, each data signal it took has been printed, but for the one it is at |
| AtSync.ClosedDescriptorIff | examples/gnss_atcmd/gnss_atcmd_main.c:493-611 | in every run the sub-thread uses a closed GNSS descriptor exactly while the emulator is about to signal or joining, and whenever it obeys the termination signal the descriptor it turns the signals off on is closed |
| AtSync.OrderlyShutdown | examples/gnss_atcmd/gnss_atcmd_main.c:402-513 | a run without any failure, ended by the exit command, gets there |
| DualPlayers.BothFaithful | examples/audio_dual_players/audio_dual_players_main.cxx:306-373 | over all interleavings of two threads and two decoders no offer is refused, taken plus queued bytes are the file prefix of the length the size field says, and an end-of-stream stop means the whole file was queued |
| DualPlayers.RunKeepsInv | examples/audio_dual_players/audio_dual_players_main.cxx:306-373 | conservation and the reserved room for the pushes to come hold after every run of one player and its decoder |
| DualPlayers.OfferKeepsInv | examples/audio_dual_players/audio_dual_players_main.cxx:318-321 | an offer is never refused and queues all bytes in hand |
| DualPlayers.SnapshotLetsIn | examples/audio_dual_players/audio_dual_players_main.cxx:356-371 | a vacancy of more than one element lets in as many pushes as it has whole elements, ten at most, any other none |
| DualPlayers.EofLatches | examples/audio_dual_players/audio_dual_players_main.cxx:323-330 | once the size field is zero nothing more is queued in any run until the next open, and every read that succeeds ends its push with the end-of-file result |
| DualPlayers.PlayerInfo.ReadStep | examples/audio_dual_players/audio_dual_players_main.cxx:306-316 | a read error, the end of the file and a read of some bytes each lead to the matching point of the machine |
| DualPlayers.PlayerInfo.OfferRead | examples/audio_dual_players/audio_dual_players_main.cxx:318-330 | the offer is a step of the machine that is never refused, and the end is reported exactly at size zero |
| DualPlayers.PlayerInfo.Push | examples/audio_dual_players/audio_dual_players_main.cxx:306-331 | every execution, with the decoder taking bytes in between, is a run of the machine that keeps its invariant; it never reports a full FIFO, and the end exactly at size zero |
| DualPlayers.PlayerInfo.FirstPush | examples/audio_dual_players/audio_dual_players_main.cxx:333-347 | the loop is a run of the machine that ends playing, at the end of the file or after exactly nineteen reads, or stops unstarted on a read error |
| DualPlayers.PlayerInfo.Refill | examples/audio_dual_players/audio_dual_players_main.cxx:349-373 | a run of the machine; with room for more than one element and without a read error it makes as many reads as the vacancy has whole elements, ten at most, so the file position grows or stands at the end, which is reported exactly then; with less room it does nothing |
| DualPlayers.PlayerInfo.PlayProcess | examples/audio_dual_players/audio_dual_players_main.cxx:844-888 | a run of the machine; the end-of-stream stop is chosen only when the entire file has been queued in order, and it is reached, unless time is up or a read fails first, after at most as many rounds as there are rounds without room and bytes left |
| DualPlayers.PlayerInfo.PlayerThread | examples/audio_dual_players/audio_dual_players_main.cxx:890-958 | for any files and repeats, with setting up the FIFO and starting the player succeeding or not, whatever the thread does is a run of the machine from a fresh player and keeps the invariant |
| Recorder.Recording.constructor | examples/audio_recorder/audio_recorder_main.cxx:770-777 | a recording starts with size zero, an empty FIFO and a file that is the header for size zero, or empty without a container |
| Recorder.Recording.WriteOutputFile | examples/audio_recorder/audio_recorder_main.cxx:358-383 | either exactly the requested bytes move from the FIFO to the file and the size grows by them modulo 2^32, or nothing changes |
| Recorder.Recording.PopSimpleFifo | examples/audio_recorder/audio_recorder_main.cxx:402-415 | with a producer that only appends, everything present at the snapshot is taken in order, so no poll asks for more than is there |
| Recorder.Recording.StopRecorder | examples/audio_recorder/audio_recorder_main.cxx:790-826 | a refused stop changes nothing; an accepted one drains until the FIFO is empty and rewrites the header, as much of it as fwrite takes, with the captured size |
| Recorder.Record | examples/audio_recorder/audio_recorder_main.cxx:770-826 | for every run the body and what a refused stop left in the FIFO are the captured stream, unless writes were short, and then they and the lost bytes still add up; after a full header write the file is the header for the recorded size followed by the body, and that size is the body's exactly if the body is below 2^32 bytes and short writes lost a multiple of 2^32, none in particular |
| RcFilter.SoundEffector.FilterSample | examples/audio_sound_effector/audio_sound_effector.cxx:84-111 | one call in place: every frame becomes the level after it, from the saved or reseeded levels, the last level is saved, samples beyond the counted frames are untouched |
| RcFilter.LeftAlone | examples/audio_sound_effector/audio_sound_effector.cxx:101-110 | the left levels depend on the left levels and samples only |
| RcFilter.RightAlone | examples/audio_sound_effector/audio_sound_effector.cxx:101-110 | the right levels depend on the right levels and samples only |
| RcFilter.SeedAlone | examples/audio_sound_effector/audio_sound_effector.cxx:94-98 | each reseeded level is ten times the first sample of its own channel, whatever the other one holds |
| RcFilter.StepWeights | examples/audio_sound_effector/audio_sound_effector.cxx:103-104 | a step is 0.995 of the level and 0.05 of the sample, up to less than two units |
| RcFilter.SteadyLevel | examples/audio_sound_effector/audio_sound_effector.cxx:103-104 | the gain for steady input is ten |
| RcFilter.BoundedRun | examples/audio_sound_effector/audio_sound_effector.cxx:84-111 | for every m with 10m at most 32767 and every run of buffers within m, all outputs and saved levels stay within 10m |
| RcFilter.StepInBand | examples/audio_sound_effector/audio_sound_effector.cxx:103-104 | inside that band the int16 store never wraps |
| RcFilter.SeedExactIff | examples/audio_sound_effector/audio_sound_effector.cxx:94-98 | the reseeding store is exact on all samples within m exactly when 10m fits 15 bits |
| RcFilter.LevelMonotone | examples/audio_sound_effector/audio_sound_effector.cxx:101-110 | from all starting levels, higher levels and samples never give lower outputs while the samples stay within 3299 |
| RcFilter.LevelMonotoneIff | examples/audio_sound_effector/audio_sound_effector.cxx:101-110 | 3299 is the exact limit: all runs of loudness m keep the order of outputs if and only if m is at most 3299 |
| RcFilter.NeverWrapsIff | examples/audio_sound_effector/audio_sound_effector.cxx:103-104 | the int16 stores are exact from every level for all input within m exactly up to the same limit |
| RcFilter.LoudestWraps | examples/audio_sound_effector/audio_sound_effector.cxx:103-104 | the input on which it fails: at level 32767 the sample 3299 gives 32767, the sample 3300 gives -32768 |
| RcFilter.SilenceReachesZero | examples/audio_sound_effector/audio_sound_effector.cxx:101-110 | with silent input every level shrinks strictly and is exactly zero after as many steps as its magnitude |
| RcFilter.SplitIff | examples/audio_sound_effector/audio_sound_effector.cxx:91-110 | filtering A++B in one call equals filtering A then B exactly when A does not end in full silence, or ten times B's first samples wrap to zero |
| RcFilter.SplitState | examples/audio_sound_effector/audio_sound_effector.cxx:91-110 | then the saved levels agree as well |
| Scan.StatesSplit | examples/audio_sound_effector/audio_sound_effector.cxx:101-110 | running a step over a concatenation is running over its parts with the state carried across |
| JpegRaster.OutFile.constructor | examples/jpeg_decode/jpeg_decode_main.c:375-381 | the file is created empty and positioned at the full size |
| JpegRaster.OutFile.OutputToFile | examples/jpeg_decode/jpeg_decode_main.c:386-414 | a buffer's rows are laid over the file one pitch apart from the given position, nothing else changes |
| JpegRaster.TilesMakeRasterIff | examples/jpeg_decode/jpeg_decode_main.c:386-414 | all tiles in any order leave exactly the raster in the file if and only if the image is one pitch wide or the tiles are one line high, for every image |
| JpegRaster.RowSpan | examples/jpeg_decode/jpeg_decode_main.c:633-655 | a byte lies in row y of a tile exactly when the tile owns it and it is on that raster line |
| JpegRaster.WrittenOnce | examples/jpeg_decode/jpeg_decode_main.c:633-655 | each byte of the raster lies in one row of one tile only |
| JpegRaster.DrawLength | examples/jpeg_decode/jpeg_decode_main.c:386-414 | the exact length of the file after all tiles, for any width |
| JpegRaster.DecodeByMcus | examples/jpeg_decode/jpeg_decode_main.c:588-655 | the tile path ends with the raster exactly under that condition, tile sizes being the quotients |
| JpegRaster.DecodeByLines | examples/jpeg_decode/jpeg_decode_main.c:656-679 | the scanline path ends with the raster for every width |
| Colour.PackedFields | examples/jpeg_decode/jpeg_decode_main.c:255-266 | the packed fields do not overlap and unpack to the truncated components |
| Colour.Yuv2Rgb | examples/jpeg_decode/jpeg_decode_main.c:270-292 | in place, each four-byte group holds the two pixels computed from its own original bytes, and bytes past the last group are unchanged |
| Colour.ConvertedColours | examples/jpeg_decode/jpeg_decode_main.c:241-292 | after the conversion each group U Y0 V Y1 holds the colour of Y0, then that of Y1, both with its U and V: five bits of red, six of green, five of blue, low byte first, of the clamped integers nearest to the real-valued conversion |
| Colour.ComponentsNearest | examples/jpeg_decode/jpeg_decode_main.c:241-253 | red, green and blue are the integers nearest to (y-16)+1.578125(cr-128), (y-16)-0.1875(cb-128)-0.46875(cr-128) and (y-16)+1.859375(cb-128), clamped to a byte |
| Colour.Directions | examples/jpeg_decode/jpeg_decode_main.c:241-253 | red and blue never fall as luma and their own chroma rise, green never falls as luma rises and either chroma falls |
| Colour.NeutralIsGrey | examples/jpeg_decode/jpeg_decode_main.c:241-253 | neutral chroma gives the grey of luma minus 16 |
| FwPackage.Client.DoPartialDownload | examples/fwupdate/fwupdate_package.c:106-147 | the calls made and the code returned are those of the chunking rule, and on code zero exactly the image is consumed |
| FwPackage.Client.DoPackageDownload | examples/fwupdate/fwupdate_package.c:149-194 | the whole stream's calls and final code, with both loops terminating |
| FwPackage.Client.FwupdatePackage | examples/fwupdate/fwupdate_package.c:200-242 | update() is called once, after the last download, exactly if the code is not negative |
| FwPackage.ParseSerialize | examples/fwupdate/fwupdate_package.c:64-76 | parsing a serialized package gives its images back, whatever follows |
| FwPackage.HeaderLayout | examples/fwupdate/fwupdate_package.c:64-76 | a header is the type, then the size, each four bytes, low byte first, and the data follow |
| FwPackage.ChunksCarry | examples/fwupdate/fwupdate_package.c:114-144 | an image's calls carry its type and full size, hold one byte to one work size each, concatenate to its data, and only the last code is returned |
| FwPackage.ChunkCountIsCeiling | examples/fwupdate/fwupdate_package.c:114-144 | the number of chunks is the size divided by the work size, rounded up |
| FwPackage.CutShortCalls | examples/fwupdate/fwupdate_package.c:114-144 | of a record cut short only whole work sizes are downloaded, in order; the bytes left over never reach download() |
| FwPackage.CutShortCode | examples/fwupdate/fwupdate_package.c:114-144 | if buffers can be allocated, all its whole work sizes are downloaded and the code is -ENODATA |
| FwPackage.EmptyRecord | examples/fwupdate/fwupdate_package.c:170-185 | a record of size zero downloads nothing and gives -ENOENT |
| FwPackage.PackageRoundTrip | examples/fwupdate/fwupdate_package.c:106-194 | with all codes zero, the calls for a serialized package are its images in order, even with a few bytes trailing |
| FwPackage.BrokenRecordIff | examples/fwupdate/fwupdate_package.c:149-240 | with a zero-size or cut-short record behind complete ones, the code is negative exactly if the first nonzero code of an image before it, if any, is negative |
| FwPackage.BrokenRecordMissed | examples/fwupdate/fwupdate_package.c:133-188 | a run where it is not, for a client with positive codes: the only chunk of the first image is answered by one, and the zero-size record behind it goes unnoticed |
| FwPackage.BrokenRecordStopsUpdate | examples/fwupdate/fwupdate_package.c:149-240 | with replies of at most zero, the only ones of the repository's own client, a broken record always gives a negative code |
| FwPackage.ChunkLost | examples/fwupdate/fwupdate_package.c:114-144 | a run of that client in which the middle chunk of three is refused with -1 and the update starts all the same |
| FwPackage.EndingCode | examples/fwupdate/fwupdate_package.c:133-188 | which code ends a run that starts with complete records, allocation failures included: codes of earlier chunks play no part |
| FwPackage.UpdateIff | examples/fwupdate/fwupdate_package.c:133-232 | over complete records the update starts exactly when the first nonzero code of an image, if any, is positive; an image whose buffer cannot be allocated counts as negative |
| FwPackage.EveryFile | examples/fwupdate/fwupdate_package.c:149-194 | every file is a serialized package followed by less than a header or by a broken record |
| FwPackage.UpdateForEveryFile | examples/fwupdate/fwupdate_package.c:106-232 | so for every file, work size, code and allocation the update starts exactly if the first nonzero code of a complete image is positive or, when there is none, no broken record follows |
| AsyncRing.RpcClient.GetAsyncBuffer | examples/fft/dsp_rpc.c:77-88 | the slots are handed out in turn |
| AsyncRing.RpcClient.DspSend | examples/fft/dsp_rpc.c:90-107 | a successful send queues the slot, a failing one changes nothing |
| AsyncRing.RpcClient.FftRequestCall | examples/fft/dsp_rpc.c:157-165 | the hash and the descriptor go into the current slot; building and sending refines the numbered-build specification |
| AsyncRing.RpcClient.FftStreamInput | examples/fft/dsp_rpc.c:204-213 | likewise for stream input with the buffer, then its size; the third word may be stale for the other kind |
| AsyncRing.RpcClient.DspReceive | examples/fft/dsp/dsp_main.c:702-708 | the DSP takes the oldest message off the queue and keeps the slot address |
| AsyncRing.RpcClient.DspRead | examples/fft/dsp/dsp_main.c:728-734 | later it reads whatever request was built last in that slot |
| AsyncRing.DeliveredInOrderIff | examples/fft/dsp_rpc.c:77-213 | over every run from the start, whatever sends fail, with no request built twice: the DSP gets exactly the sent requests, in call order, if and only if each read comes while at most k builds, its own included, were made since its build |
| AsyncRing.DeliveredInOrder | examples/fft/dsp_rpc.c:77-213 | the sufficient half for any requests and from any state |
| AsyncRing.DisciplineSuffices | examples/fft/dsp_rpc.c:77-213 | for any ring size, fewer than k open requests at each build and no failing send keep every read in time and the open requests the last ones built |
| AsyncRing.DisciplinedRunIsSafe | examples/fft/dsp_rpc.c:77-213 | after every such run from the start, the slots of outstanding requests are pairwise different and the DSP has got every request with its own arguments, in call order, but for those still outstanding |
| AsyncRing.FailedSendsOverwrite | examples/fft/dsp_rpc.c:90-107 | for every ring size, k failing sends behind one waiting message make it arrive with foreign arguments |
| Planar.CalcDataBsize | examples/dnnrt_lenet/pnm_util.c:92-99 | three 32-bit stores give width times height times colours times sample bytes modulo 2^32 |
| Planar.ReadBinaryData | examples/dnnrt_lenet/pnm_util.c:101-118 | the output is the planes one after another, the cursor ends at the data size, the rest is untouched |
| Planar.Transpose | examples/dnnrt_lenet/pnm_util.c:109-117 | if the size divides evenly, output c*q+k comes from input k*p+c |
| Planar.PlanesPermute | examples/dnnrt_lenet/pnm_util.c:109-117 | for every size and number of colours each input byte is used exactly once |
| Planar.PlanesByMagic | examples/dnnrt_lenet/pnm_util.c:92-118 | P5 images keep their order, of P6 images every third byte makes one of three planes |
| Planar.ReinterleaveRestores | examples/dnnrt_lenet/pnm_util.c:109-117 | reading the planes back pixel by pixel restores the input |
| Planar.LoadBody | examples/dnnrt_lenet/pnm_util.c:208-226 | a body is loaded exactly if its 32-bit size fits the 784-byte buffer and all its bytes are there, otherwise the output is untouched |
| Planar.RoomIff | examples/dnnrt_lenet/pnm_util.c:208-247 | the writes stay inside the output for every file exactly if it holds at least 784 elements, so 784 is the one size that pnm_load lets through and that is safe |
| Planar.PlanesPureIff | examples/dnnrt_lenet/pnm_util.c:109-117 | planes hold one colour each exactly for one-byte samples or grey images |

## Left out

- AtCommand.GnssAtcmdExec: lines of more than eight words are excluded, as the argument vector has eight places; handlers are a given function from command and words to a code.
- AtCommand.StrTok: `strtok` is modelled for its one-space delimiter; its static pointer is passed as an argument.
- AtFrame.CheckHeadfoot: the declared length must lie inside the buffer, as the code reads the footer there unchecked.
- AtLine.Emulator.Emulate: observed for a given number of turns; a poll failure ends the observation.
- DualPlayers.PlayerInfo.PlayProcess: observed for a given number of rounds; play time is the round in which it runs out.
- DualPlayers.BothFaithful: the FIFO library is a bounded queue with all-or-nothing offers and at least 19 elements of room; a file does not change while it is open.
- Recorder.Recording.WriteOutputFile: the branch for a negative `fwrite` result is left out, as `fwrite` returns a count.
- JpegRaster.DecodeByMcus: tile counts must divide the image, and each decode is assumed to return one tile at its raster offset; tiles of zero size do not occur.
- Planar.CalcDataBsize: the first product is a signed multiplication; from 2^31 on C leaves its result open, and the model takes the two's-complement wrap.
- Planar.LoadBody: an accepted body must fit the output, as the code writes it there unchecked.
- AsyncRing.RpcClient.DspRead: the words of one argument block are read in one step.
- Planar.ReadBinaryData: the division by the norm factor is an arbitrary function of the byte.
- FwPackage.Client.FwupdatePackage: the package file is assumed to open; `init()` and `msgsync()` have no effect on what is stated.
- AtSync: NMEA output outside the lock and the content of the signals are not modelled.
- Device, ioctl, mqueue and file-system calls beyond their results, and the libraries behind them.
- Text headers of image files, WAV header contents, date and coordinate conversion, LCD output.
- The DSP's own sample ring, window and FFT arithmetic.
- Other examples of the repository: straight-line API sequences, or variants of the loops modelled here.
