# Verified model of the tunnel and the GPS receiver

This project models two programs in Dafny and proves what they promise.

**The erasure-coded tunnel** (`script/tun-vpn`). Large packets are cut into two data fragments
and one parity fragment by a systematic Cauchy Reed-Solomon code over GF(2^8); any two fragments
restore the packet. Small packets are sent on both paths and a duplicate filter passes one copy
on. The server remembers which gateway a connection came through.

**The UBX receiver** (`script/gps/main.c`). A byte-driven framer cuts the serial input into
frames and answers a poll, with the two-byte checksum of the UBX protocol.

The layers build on each other:

| file | content |
|---|---|
| `Gf256`, `GfTables`, `GfTableLaws`, `GfLaws`, `Field` | shift-and-xor product modulo polynomial 285, the constant tables, and the proof that the log/exp product, the nibble shuffle tables and the inverse table agree with it and that it is a field |
| `Oblas`, `Axpyb32`, `RsKernel` | the row kernels on arrays, scalar and vector builds, and how matrices lie in memory |
| `Cauchy`, `LinearSystem`, `Elimination` | closed form of every entry during elimination without pivoting; row operations keep solutions |
| `RsSolve`, `ErasureCode`, `ReedSolomon` | `invert_mat`, encoding and decoding in place on shard buffers |
| `Mds` | the decoder gives up only where no decoder could succeed |
| `Dedup`, `Fec`, `FecRun`, `Tunnel` | duplicate filter and fragment reassembler, one call at a time and over whole runs |
| `Transport` | sender and receiver together, large and small packets under one counter |
| `IhList`, `IhHlist` | the intrusive lists of `ih_list.h`, on heap nodes |
| `Routing`, `ConnTable` | the connection table, as a value and as an object over the intrusive list |
| `UbxChecksum`, `UbxFramer`, `UbxStream`, `Common` | checksum, receiver object, and what it makes of a whole input stream |

Methods that change arrays or objects are proved against functions or predicates on values; the
lemmas then prove the properties of those. Bytes are `bv8`, boxed as `Field.Byte` above the table
level so that algebra treats them as field elements. Time is an integer parameter.

Main results, hardest first:

1. `ReedSolomon.Codec.EncodeOverwriteDecode`: encode, overwrite the marked shards with anything,
   decode: the data shards are back, for every size, every content and every recoverable loss.
2. `Mds.RecoverableExactly`: surviving shards determine the data if and only if no more data
   shards are lost than parity shards survive, which is exactly when `Codec.Decode` returns 0.
3. `Cauchy.EntryStep`, `Cauchy.EntryNonZero`: every entry during elimination has a closed form, so
   no pivot is zero although rows are never exchanged.
4. `Transport.Transport` over the real sender, codecs, fragment table and duplicate filter: mixed
   large and small packets, numbered from anywhere, datagrams lost, repeated and interleaved. What
   comes out is exactly the messages whose first two fragments, or first copy, arrive, each once
   and whole (`Transport.WrittenOnce`, `Transport.WrittenExactly`, `Transport.LargeFromAnyTwo`). Below it, on values:
   `FecRun.EndToEnd`, `FecRun.OrderlyRun`, `FecRun.CompleteExactly`, `Dedup.ExactlyOnce`.
5. `UbxStream.EveryInput`, `UbxStream.FrameBehind`, `UbxStream.Soundness`, `UbxFramer.PollUbxData`:
   for every input whatever the receiver judges exactly the frames at its cuts, a frame is taken
   whole if and only if it starts at a cut, and the way the input is split into reads is irrelevant.
   `UbxStream.SentFrame` and `UbxStream.DamageReported` are the round trip with a sender.
6. `Routing.Sticky`, `Routing.ForgottenExactly`, `Routing.RoutedBack`, `Routing.TwoHosts`; `Dedup.RunExact`; the list operations.

Where a property is false of the code, a lemma gives the input and another the exact condition:

- A cleared duplicate slot holds 0xAAAA, because `memset` stores one byte of the constant 0x55AA
  in both halves of the slot, so a first packet with that number is dropped
  (`Dedup.FillerDropsPacket`). The filter is exact if and only if no arrival meets its wire number
  under another identity (`Dedup.RunExact`).
- The first packet of an unused fragment slot is mishandled if it is numbered 0xAA55
  (`FecRun.UnusedNumberLost`), and so is a packet whose slot holds its wire number for another
  one. The slot is taken over correctly, and the packet delivered at its next fragment, if and only
  if there is no such clash (`FecRun.TakeoverExact`, `FecRun.DeliveredExactly`).
- A repeated fragment is counted like a new one, so decoding fails and the packet is lost although
  the missing fragments may still come (`Fec.RepeatLosesPacket`). Over whole runs a packet is
  delivered if and only if the first two of its fragments to arrive are different
  (`FecRun.CompleteExactly`).
- A stray 0xB5 in front of a frame loses the frame (`UbxStream.StraySyncLosesFrame`,
  `UbxStream.VersionFrame`). Behind any input without a verdict, a frame is taken whole if and only
  if the input ends at a cut (`UbxStream.FrameBehind`).
- A rejection is believed without a checksum test (`UbxStream.RejectionUnchecked`), so the
  checksum protects successes only.
- The decoder's last diagonal scaling writes behind a buffer of the size `reed_solomon_bufsize`
  asks for if and only if two or more data shards are lost, all of them, no parity shard is to
  spare, and the last factor is not one (`ReedSolomon.Codec.MinimalScratch`).
  `ReedSolomon.Codec.TwoByTwoRunsOver` is such a loss. The last factor depends on the number of
  shards only, and no number is known for which it is one.
- Connections whose addresses have the same sum share an entry (`Routing.CollidingConnections`), a
  gateway numbered 0 never gets a reply because 0 stands for no gateway
  (`Routing.GatewayZeroUnanswered`), and without memory for an entry nobody does. The reply to a
  request is delivered to the gateway that sent it if and only if that gateway is not numbered 0
  and either holds the key already, or nobody holds it and the allocation succeeds
  (`Routing.RoutedBack`).
- A node that becomes the last of a sorted chain keeps its own next pointer; `IhHlist.AddSorted`
  says exactly when the result is a proper list.

## Model

| member | source | states |
|---|---|---|
| `GfTableLaws.ExpOfLog` | script/tun-vpn/obl/gf2_8_tables.h:7-60 | the exponent table undoes the logarithm table on every non-zero byte, and the index stays in the table |
| `GfTableLaws.ShufRows` | script/tun-vpn/obl/gf2_8_tables.h:82-600 | every lane of the two shuffle rows of u is the field product of u with the nibble it stands for |
| `GfLaws.MulComm` | script/tun-vpn/obl/oblas_lite.c:4-12 | the shift-and-xor product modulo 285 is commutative |
| `GfLaws.MulAssoc` | script/tun-vpn/obl/oblas_lite.c:4-12 | and associative |
| `GfLaws.MulAddRight` | script/tun-vpn/obl/oblas_lite.c:4-12 | and distributes over xor |
| `GfLaws.MulInv` | script/tun-vpn/obl/gf2_8_tables.h:62-80 | the inverse table holds multiplicative inverses of all non-zero bytes |
| `GfLaws.LogExpMulIsMul` | script/tun-vpn/obl/oblas_lite.c:4-12 | the product by logarithm and exponent tables, zero cases included, is the field product for all pairs of bytes |
| `GfLaws.NibbleMulIsMul` | script/tun-vpn/obl/gf2_8_tables.h:82-600 | the xor of the two nibble look-ups is the field product for all pairs of bytes |
| `Oblas.ShuffleProductIsTimes` | script/tun-vpn/obl/oblas_lite.c:117-135 | every lane of the mask, shift, shuffle and xor sequence holds the field product, although the shift moves bits across bytes |
| `Oblas.AxpyRef` | script/tun-vpn/obl/oblas_lite.c:14-19 | adds u times the source stretch to the target stretch and changes nothing else |
| `Oblas.ScalRef` | script/tun-vpn/obl/oblas_lite.c:21-27 | multiplies the stretch by u and changes nothing else |
| `Oblas.OblAxpy` | script/tun-vpn/obl/oblas_lite.c:227-236 | the block loop and the tail of every vector build leave the same array as the scalar loop, for every length and multiplier |
| `Oblas.OblScal` | script/tun-vpn/obl/oblas_lite.c:238-241 | the same for scaling |
| `Axpyb32.ClearLowest` | script/tun-vpn/obl/oblas_lite.c:51-61 | tmp & (tmp - 1) clears the bit ctz names and no other |
| `Axpyb32.LaneIsBit` | script/tun-vpn/obl/oblas_lite.c:139-156 | after shuffle, and-not, compare and mask a lane holds u exactly when its bit of the word is set |
| `Axpyb32.WordRef` | script/tun-vpn/obl/oblas_lite.c:51-61 | the bit loop adds u to exactly the bytes whose bits are set in the word |
| `Axpyb32.WordSimd` | script/tun-vpn/obl/oblas_lite.c:189-209 | one 32-lane register or two of 16 lanes do the same to a word's bytes |
| `Axpyb32.OblAxpyb32` | script/tun-vpn/obl/oblas_lite.c:253-256 | the plain and the vector builds add u to the same bytes, for every row of words |
| `Cauchy.EntryStart` | script/tun-vpn/rs.c:99-103 | the closed form starts as the generated matrix |
| `Cauchy.EntryStep` | script/tun-vpn/rs.c:58-67 | one elimination step takes the closed form of an entry to the next one |
| `Cauchy.EntryNonZero` | script/tun-vpn/rs.c:59 | every pivot, and every other remaining entry, is non-zero at every step |
| `LinearSystem.SameRowAdd` | script/tun-vpn/rs.c:64-65 | adding a multiple of one row to another in matrix and shards keeps the solutions at every byte position |
| `LinearSystem.SameRowScale` | script/tun-vpn/rs.c:60-61 | so does scaling a row by a non-zero factor |
| `LinearSystem.ReducedIsUnique` | script/tun-vpn/rs.c:68-74 | a system reduced to the identity has its right-hand side as its only solution |
| `Elimination.NormalisePivot` | script/tun-vpn/rs.c:59-61 | the pivot is non-zero and the scaled row starts with one |
| `Elimination.ClearRow` | script/tun-vpn/rs.c:62-66 | clearing a row below the pivot leaves zeros and the closed form of the next step |
| `Elimination.BackClear` | script/tun-vpn/rs.c:70-73 | back-substitution clears one entry above the diagonal and keeps the others |
| `RsKernel.Axpy` | script/tun-vpn/rs.c:10-22 | with its shortcuts for 0 and 1 it still adds u times the source, two stretches of one array included |
| `RsKernel.Scal` | script/tun-vpn/rs.c:24-29 | multiplies by u, except that u = 0 leaves the stretch alone |
| `RsKernel.MatrixDiagonalScaled` | script/tun-vpn/rs.c:60 | scaling W bytes from the diagonal, which runs on into the next row, changes the pivot row only |
| `RsSolve.CopyMatrix` | script/tun-vpn/rs.c:46-50 | the scratch area becomes the square matrix of the chosen rows and columns; the coefficients stay |
| `RsSolve.SubtractKnown` | script/tun-vpn/rs.c:51-57 | every lost buffer has its coefficients times the surviving shards added |
| `RsSolve.ForwardPass` | script/tun-vpn/rs.c:58-67 | the matrix becomes a unit upper triangle with the same solutions, in place |
| `RsSolve.BackwardPass` | script/tun-vpn/rs.c:68-74 | the buffers become the right-hand side of an identity system with the same solutions |
| `RsSolve.InvertMat` | script/tun-vpn/rs.c:42-76 | the lost buffers end up holding the one and only solution of the parity equations, byte by byte |
| `ErasureCode.DotSplit` | script/tun-vpn/rs.c:51-57 | a parity row splits into its surviving and its lost columns |
| `ErasureCode.LostSystem` | script/tun-vpn/rs.c:134-157 | for any marks the planned system is a Cauchy system at the chosen parity rows and lost columns, inside the stored matrix |
| `ErasureCode.LostMatrixIsCauchy` | script/tun-vpn/rs.c:46-50 | the matrix of any surviving parity rows and lost columns is a Cauchy matrix with distinct points |
| `ErasureCode.EquationsMeanParity` | script/tun-vpn/rs.c:46-57 | at every byte position the solved equations say exactly that the parity of the data is met |
| `ErasureCode.SolutionExplains` | script/tun-vpn/rs.c:161-162 | the solved blocks in the lost places are the only data that agree with all survivors used |
| `ErasureCode.CodewordExplains` | script/tun-vpn/rs.c:165-171 | encoded data agree with whatever survives, however the marked shards were overwritten |
| `ReedSolomon.NewStatic` | script/tun-vpn/rs.c:83-106 | a codec is built exactly for at least one data and one parity shard, at most 255 in all, and a large enough buffer; its matrix is then the Cauchy matrix |
| `ReedSolomon.Codec.FillMatrix` | script/tun-vpn/rs.c:99-103 | row j, column i holds the inverse of (ps + i) xor j |
| `ReedSolomon.Codec.Gemm` | script/tun-vpn/rs.c:31-40 | every parity byte is the product of its coefficient row with the data bytes |
| `ReedSolomon.Codec.Encode` | script/tun-vpn/rs.c:165-171 | too few buffers are refused and left alone; otherwise the first shards form a codeword, and the data and any further buffers stay |
| `ReedSolomon.PlanColumns` | script/tun-vpn/rs.c:138-147 | the column permutation lists the survivors, then the lost shards, both ascending |
| `ReedSolomon.Codec.NextSpare` | script/tun-vpn/rs.c:150-152 | the scan finds the next unmarked entry and ends inside the marks; it leaves the shards only when too few survive |
| `ReedSolomon.Codec.TakeParity` | script/tun-vpn/rs.c:149-159 | the first surviving parity shards are copied to the lost places in order; it stops short exactly when they run out |
| `ReedSolomon.Codec.Decode` | script/tun-vpn/rs.c:129-163 | returns 0 exactly when enough shards survive, keeps unmarked shards and coefficients, and leaves the only data that explain the survivors |
| `ReedSolomon.Codec.EncodeOverwriteDecode` | script/tun-vpn/rs.c:129-171 | decoding after encoding and overwriting restores every data shard, and the codec can be used again |
| `ReedSolomon.Codec.MinimalScratch` | script/tun-vpn/rs.h:15 | with the requested buffer decoding stays inside except for a tight loss whose last factor is not one, and then the last scaling ends behind the buffer |
| `ReedSolomon.Codec.ScratchSuffices` | script/tun-vpn/rs.c:60 | a loss that is not tight never needs more than the requested buffer |
| `ReedSolomon.Codec.TwoByTwoRunsOver` | script/tun-vpn/rs.c:58-61 | two data and two parity shards with both data shards lost: the last factor is 10 and the scaling ends one byte behind the buffer |
| `Mds.CauchyIsRegular` | script/tun-vpn/rs.c:42-76 | a Cauchy system has exactly one solution for every right-hand side |
| `Mds.UniqueExplanation` | script/tun-vpn/rs.c:129-163 | for every recoverable loss exactly one data explains the survivors |
| `Mds.TooFewConfuse` | script/tun-vpn/rs.c:158-159 | for every other loss two codewords with different data look the same |
| `Mds.RecoverableExactly` | script/tun-vpn/rs.c:129-163 | the survivors determine the data if and only if the decoder recovers them |
| `Dedup.DedupState.IsDuplicate` | script/tun-vpn/ustun.c:330-350 | one call changes the slots, the time of the last update and the answer as the value function says, the expiry included |
| `Dedup.StepMeans` | script/tun-vpn/ustun.c:330-350 | a packet is a duplicate if and only if its slot of 8192 holds its number, or 0xAAAA in every slot after more than 180 seconds; the other slots stay and only an accepted packet or the expiry moves the time |
| `Dedup.Remembered` | script/tun-vpn/ustun.c:337-346 | an accepted number stays in its slot for three minutes, whatever else arrives |
| `Dedup.AtMostOnce` | script/tun-vpn/ustun.c:330-350 | of all copies of a number within three minutes at most one is passed on, over whole runs with wrap-around |
| `Dedup.PassesAfterSilence` | script/tun-vpn/ustun.c:337-346 | after more than 180 quiet seconds a packet is passed on, seen before or not, unless its number is 0xAAAA |
| `Dedup.FirstCopyPasses` | script/tun-vpn/ustun.c:341-346 | from a cleared filter on, the first copy of a packet is passed on if and only if its wire number does not confuse the filter |
| `Dedup.ExactlyOnce` | script/tun-vpn/ustun.c:330-350 | in an unconfused run exactly the first of the copies within three minutes is passed on |
| `Dedup.StepExact` | script/tun-vpn/ustun.c:337-346 | a call decides like a filter that remembers whole numbers if and only if the 16-bit number does not confuse it |
| `Dedup.RunExact` | script/tun-vpn/ustun.c:330-350 | a whole run is judged like that if and only if no arrival is confused |
| `Dedup.FillerDropsPacket` | script/tun-vpn/ustun.c:337-338 | after a clear a packet with number 0xAAAA is dropped |
| `Fec.RecoverableIfTwo` | script/tun-vpn/ustun.c:382-385 | decoding succeeds if and only if two of the three fragments are there |
| `Fec.RepeatLosesPacket` | script/tun-vpn/ustun.c:374-388 | the second arrival completes the packet if and only if it is another fragment, and whatever comes later is ignored |
| `Fec.FecSlot.Receive` | script/tun-vpn/ustun.c:365-400 | one call on a slot: takeover, storing, and decoding in place with success or failure, repeated fragments included |
| `Tunnel.FecTable.constructor` | script/tun-vpn/ustun.c:308-328 | all 8192 slots start unused, with buffers of their own |
| `Tunnel.FecTable.FecRecvDone` | script/tun-vpn/ustun.c:352-406 | only the slot addressed by the number takes part in a call |
| `Tunnel.FecSender.SendFec` | script/tun-vpn/ustun.c:766-789 | the three fragments form a codeword of the packet under one number, which then advances modulo 65536 |
| `Transport.SendToGateway` | script/tun-vpn/ustun.c:755-806 | with coding on, a packet of more than 1200 bytes travels as fragments 0, 1 and 2 of 750 bytes, whatever paths are usable: its bytes in the first two, the first plus 142 times the second in the third; any other travels whole, once on every usable path; both use up one number of 65536 |
| `Transport.ParityOfTwo` | script/tun-vpn/rs.c:99-103 | the coefficients of two data shards and one parity shard are the inverses 1 and 142 of 1 and 2 |
| `Transport.SendAll` | script/tun-vpn/ustun.c:755-806 | messages sent one after the other are carried under ascending wire numbers, from whatever number the counter has reached |
| `Transport.Receive` | script/tun-vpn/ustun.c:706-720 | the receiver thread on mixed traffic: fragments to the table, whole packets to the filter, each message written exactly when it should be |
| `Transport.Transport` | script/tun-vpn/ustun.c:706-806 | sender and receiver together, from any starting number: with coding on, a message of more than 1200 bytes comes out whole at its second datagram to arrive, if that is not the first again, any other at its first, and nothing else does |
| `Transport.WrittenOnce` | script/tun-vpn/ustun.c:706-720 | no message is written twice |
| `Transport.WrittenWhen` | script/tun-vpn/ustun.c:706-806 | what is expected of the receiver, in terms of the order of arrival alone |
| `Transport.LargeFromAnyTwo` | script/tun-vpn/ustun.c:706-806 | with coding on, any two different datagrams of a message of more than 1200 bytes bring it out, at the second of them |
| `Transport.WrittenExactly` | script/tun-vpn/ustun.c:706-720 | a small message is written if and only if a copy arrives, a large one if and only if the first two of its fragments to arrive are different |
| `FecRun.NextDecodable` | script/tun-vpn/ustun.c:382-385 | in an orderly run decoding succeeds if and only if the second fragment is not the first again |
| `FecRun.TakeoverExact` | script/tun-vpn/ustun.c:367-372 | a first fragment takes the slot over correctly if and only if the slot does not already hold its wire number |
| `FecRun.DeliveredExactly` | script/tun-vpn/ustun.c:367-388 | after a first fragment, another one delivers the packet whole if and only if the first one did not clash |
| `FecRun.SecondFragment` | script/tun-vpn/ustun.c:374-388 | the second fragment completes the packet if and only if it is not the first again |
| `FecRun.EndToEnd` | script/tun-vpn/ustun.c:352-406 | in every orderly run, repeated fragments included, completion is reported exactly at a second fragment that differs from the first, and the slot then holds the packet that was sent |
| `FecRun.RunExists` | script/tun-vpn/ustun.c:352-406 | every sequence of fragments, orderly or not, has a run from every unused table |
| `FecRun.OrderlyRun` | script/tun-vpn/ustun.c:352-406 | every orderly sequence has a run, which completes packets exactly there |
| `FecRun.CompleteOnce` | script/tun-vpn/ustun.c:374-404 | no packet is reported complete twice |
| `FecRun.CompleteExactly` | script/tun-vpn/ustun.c:374-404 | a packet is reported complete if and only if the first two of its fragments to arrive are different |
| `FecRun.CompleteIfTwo` | script/tun-vpn/ustun.c:374-404 | where no fragment is repeated, every packet of which two fragments arrive is reported complete |
| `FecRun.UnusedNumberLost` | script/tun-vpn/ustun.c:319-320 | a packet numbered 0xAA55 that meets an unused slot is reported with length zero and is not rebuilt |
| `IhList.Neighbours` | script/tun-vpn/ih_list.h:37-44 | in a well-formed ring next and prev are mutually inverse everywhere |
| `IhList.AddBetween` | script/tun-vpn/ih_list.h:58-66 | inserts the node behind a position of the ring |
| `IhList.Add` | script/tun-vpn/ih_list.h:76-79 | inserts right behind the head |
| `IhList.AddTail` | script/tun-vpn/ih_list.h:90-93 | inserts at the end |
| `IhList.Del` | script/tun-vpn/ih_list.h:114-119 | removes exactly the node and poisons its links |
| `IhList.DelInit` | script/tun-vpn/ih_list.h:161-165 | removes exactly the node and makes it a ring of its own |
| `IhList.Replace` | script/tun-vpn/ih_list.h:141-148 | the new node takes the old one's place, also when the old one is alone in its ring |
| `IhList.ReplaceInit` | script/tun-vpn/ih_list.h:150-155 | replaces and makes the old node a ring of its own |
| `IhList.IsLast` | script/tun-vpn/ih_list.h:195-199 | true exactly for the last entry |
| `IhList.IsSingular` | script/tun-vpn/ih_list.h:233-236 | true exactly when the list has one entry |
| `IhList.MoveWithin` | script/tun-vpn/ih_list.h:172-176 | moves a node to the front of its own list |
| `IhList.MoveAcross` | script/tun-vpn/ih_list.h:172-176 | moves a node to the front of another list |
| `IhList.CutPosition` | script/tun-vpn/ih_list.h:264-276 | the prefix up to the entry moves to the new head, an empty list is left alone |
| `IhList.Splice` | script/tun-vpn/ih_list.h:297-302 | the entries of one list go in front of another's |
| `IhList.SpliceTail` | script/tun-vpn/ih_list.h:309-314 | the entries of one list go behind another's |
| `IhList.SpliceInit` | script/tun-vpn/ih_list.h:323-330 | splices and leaves the emptied list a ring of its own |
| `IhList.CutThenSplice` | script/tun-vpn/ih_list.h:264-302 | splicing a cut prefix back restores the list |
| `IhHlist.Del` | script/tun-vpn/ih_list.h:587-601 | removes exactly the node; every pprev still names the link that points at its node |
| `IhHlist.AddHead` | script/tun-vpn/ih_list.h:611-619 | inserts in front |
| `IhHlist.AddBefore` | script/tun-vpn/ih_list.h:638-645 | inserts in front of a node |
| `IhHlist.AddAfter` | script/tun-vpn/ih_list.h:647-656 | inserts behind a node |
| `IhHlist.MoveList` | script/tun-vpn/ih_list.h:707-714 | the whole chain changes its head |
| `IhHlist.PlaceKeepsSorted` | script/tun-vpn/ih_list.h:664-669 | inserting before the first entry that is not earlier keeps a list sorted, ascending or descending, and puts the key before its equals |
| `IhHlist.AddSorted` | script/tun-vpn/ih_list.h:659-702 | the node is inserted behind all smaller keys (or greater ones, in descending order), the others keep their order, and a sorted chain stays sorted; the result is a proper list if and only if the node is not last or its next pointer was null |
| `IhHlist.AddThenDel` | script/tun-vpn/ih_list.h:587-679 | deleting the node takes its sorted insertion back |
| `Routing.ReplyHasRequestKey` | script/tun-vpn/ustun.c:494-511 | exchanging the addresses does not change the key |
| `Routing.KeySeparates` | script/tun-vpn/ustun.c:494-511 | of two packets with one address in common, the keys are equal if and only if the other addresses are |
| `Routing.UpdatedExactly` | script/tun-vpn/ustun.c:513-555 | an IPv4 packet refreshes the first entry with its key, which keeps its gateway, or enters an unknown key in front if there is memory; anything else changes nothing |
| `Routing.RoutedExactly` | script/tun-vpn/ustun.c:557-587 | an IPv4 reply refreshes the first entry with its key and gets its gateway; anything else changes nothing and gets 0 |
| `Routing.CleanExact` | script/tun-vpn/ustun.c:589-604 | the periodic cleanup keeps exactly the entries used in the last 180 seconds, the final one keeps none |
| `Routing.CleanConcat` | script/tun-vpn/ustun.c:597-602 | cleanup treats every part of the table on its own, so what it keeps stays in order |
| `Routing.AlwaysUnique` | script/tun-vpn/ustun.c:530-551 | in every run no key ever has two entries |
| `Routing.Sticky` | script/tun-vpn/ustun.c:494-604 | an entry whose key is used in time is never removed, keeps its gateway and remembers its last use |
| `Routing.Forgotten` | script/tun-vpn/ustun.c:494-604 | a key not used in the 180 seconds before a sweep is unknown after it, and the next request with it decides the gateway anew |
| `Routing.ForgottenExactly` | script/tun-vpn/ustun.c:494-604 | a connection kept in use so far is unknown after a sweep if and only if its last use lies more than 180 seconds back |
| `Routing.FirstRequestDecides` | script/tun-vpn/ustun.c:513-587 | every reply of a connection kept in use finds the gateway of its first request, and is delivered there unless that gateway is numbered 0 |
| `Routing.RoutedBack` | script/tun-vpn/ustun.c:513-587 | for IPv4 packets with exchanged addresses the reply is delivered to the gateway of the request if and only if that is not gateway 0 and it holds the key, or nobody does and an entry can be allocated |
| `Routing.TwoHosts` | script/tun-vpn/ustun.c:513-587 | two hosts that talk to one destination through different gateways each get their replies at their own gateway |
| `Routing.GatewayZeroUnanswered` | script/tun-vpn/ustun.c:739-744 | what the entry of gateway 0 gives is what an unknown key gives, and the reply is dropped |
| `Routing.CollidingConnections` | script/tun-vpn/ustun.c:510 | two connections with equal address sums share an entry, and the second one's reply goes to the first one's gateway |
| `ConnTable.ConnTable.Lookup` | script/tun-vpn/ustun.c:530-537 | the list walk returns the first entry with the key, or nothing |
| `ConnTable.ConnTable.Update` | script/tun-vpn/ustun.c:513-555 | on the linked list, a known key is refreshed and a new one inserted in front; other packets and a failed allocation change nothing |
| `ConnTable.ConnTable.FindGateway` | script/tun-vpn/ustun.c:557-587 | a reply refreshes its entry and gets its gateway, or 0 |
| `ConnTable.ConnTable.Cleanup` | script/tun-vpn/ustun.c:589-604 | the safe iteration that unlinks entries while walking leaves exactly the entries used in the last 180 seconds, in order, or none when everything expires |
| `UbxChecksum.DoChecksum` | script/gps/main.c:355-370 | the loop in 8-bit arithmetic accepts exactly the messages that end in both sums |
| `UbxChecksum.SumBIsWeighted` | script/gps/main.c:360-363 | CK_B is the position-weighted sum |
| `UbxChecksum.SingleByteDetected` | script/gps/main.c:355-370 | any single changed covered byte is rejected, at every length |
| `UbxChecksum.SwapDetected` | script/gps/main.c:355-370 | an exchange of two covered bytes passes if and only if distance times difference is a multiple of 256 |
| `UbxChecksum.NeighbourSwapDetected` | script/gps/main.c:355-370 | so every exchange of unequal neighbours is rejected |
| `UbxFramer.Receiver.TakeByte` | script/gps/main.c:444-505 | one byte changes state, frame buffer, lengths and result as the value function says |
| `UbxFramer.Receiver.TakeChunk` | script/gps/main.c:437-507 | one read does what its bytes do one after the other, and stops at a verdict |
| `UbxFramer.PollUbxData` | script/gps/main.c:419-517 | however the input is split into reads, the result is that of one pass over all of it |
| `UbxStream.AlwaysTraced` | script/gps/main.c:444-505 | outside hunting the frame buffer holds the last bytes consumed and the lengths are in bounds |
| `UbxStream.Soundness` | script/gps/main.c:473-505 | a verdict comes from one contiguous well-formed frame, the last bytes consumed |
| `UbxStream.SuccessMeansFrame` | script/gps/main.c:484-491 | success means a frame with the polled class and id and a correct checksum |
| `UbxStream.Completeness` | script/gps/main.c:447-502 | every stream of quiet filler, oversized headers and well-formed frames is cut exactly at its frames |
| `UbxStream.FirstDecidingFrameWins` | script/gps/main.c:419-517 | the poll returns what the first answering or rejecting frame says (1 or 2); without one it returns 3 if and only if a damaged answer was among the frames, and 0 otherwise |
| `UbxStream.PiecesAndRest` | script/gps/main.c:447-505 | the cuts divide every input into frames, passed-over bytes, dropped headers and an unfinished rest |
| `UbxStream.EveryInput` | script/gps/main.c:447-505 | for every input the receiver judges exactly the frames of its pieces, and is hunting again if and only if the input ends at a cut |
| `UbxStream.FirstDecidingPieceWins` | script/gps/main.c:419-517 | the same for every input, in terms of its pieces |
| `UbxStream.FrameBehind` | script/gps/main.c:447-505 | behind an input without a verdict a frame is collected from its first byte and judged with its last if and only if it starts at a cut |
| `UbxStream.QuietIsCutNoise` | script/gps/main.c:447-462 | quiet filler is exactly the input that is cut and holds neither frames nor headers |
| `UbxStream.SentFrame` | script/gps/main.c:463-505 | a poll accepts every undamaged answer of up to 2040 payload bytes, is rejected by exactly the rejections that name it, and passes over every other message |
| `UbxStream.DamageReported` | script/gps/main.c:487-515 | an answer with any one payload byte changed is reported as a checksum error |
| `UbxStream.HeaderFits` | script/gps/main.c:463-475 | a header that announces up to 2040 payload bytes is followed up, any greater length is dropped after six bytes |
| `UbxStream.RejectionUnchecked` | script/gps/main.c:482-486 | a rejecting frame with a wrong checksum is believed |
| `UbxStream.StraySyncLosesFrame` | script/gps/main.c:455-462 | a stray sync byte in front of a frame without further sync bytes costs the frame |
| `UbxStream.VersionFrame` | script/gps/main.c:484-491 | the version answer is such a frame and is accepted on its own |
| `UbxStream.DamagedVersion` | script/gps/main.c:492-514 | the version answer with its last byte changed is reported as a checksum error |

## Left out

- Sockets, `recvmmsg` and `sendmmsg`, TUN device setup, io_uring, signal handlers and command lines: I/O only. The write to the TUN device is taken as part of the step that reports completion.
- `obl_axpyb32` for AVX-512 (script/tun-vpn/obl/oblas_lite.c:91-109): it applies one 32-bit word to 64 bytes, unlike the other builds. The row of words is a sequence because the kernel only reads it.
- `gf2_8_mul_table.h`: 64K constants; row u is modelled as the function b -> u*b. Vector registers are byte sequences of fixed width; the encodings of the intrinsics are not part of this model.
- `obl_swap`, `move_tail`, `splice_tail_init`, `ih_hlist_add_tail`: they would only add easy members beside the operations proved.
- ReedSolomon.Codec.Decode: the parity scan has no bound of its own, so either enough parity shards survive or an unmarked entry lies behind the marks; with more than ts buffers and too few survivors the scan would take rows behind the matrix, which is excluded; the scratch area must hold every write (`ScratchFits`, settled by `MinimalScratch` and `ScratchSuffices`); shards are distinct buffers of the block size, each an array of its own.
- Fec.FecSlot.Receive: fragment indices above two would be stored outside the buffers and are excluded. A failed scan runs on into the bytes behind the marks: the count, which is not zero then, and the padding of the static table, taken to be zero as nothing writes it. The time of the last update of a slot is never read and is not modelled.
- FecRun.EndToEnd: is about one sender's numbers, since all gateways share the slots, and about runs without a further `init_dedup_state`.
- Dedup.AtMostOnce: the same; the clear on a gateway's start message is not part of a run.
- Tunnel.FecSender.SendFec: the fill of the client (script/tun-vpn/uctun.c:483-490) indexes twice the fragment number and is not modelled; the choice of the sending path and the packet header fields other than number, length and index are left out.
- `update_gateway_map`, `get_gateway_addr` and `cleanup_expired_gateways`: the first repeats the connection table with easier members, the second yields a pointer derived from the list head when nothing is found, the third removes a gateway only when both paths expire in one sweep.
- ConnTable.ConnTable.Update: the test of the packet length is commented out in the source, so behind a short packet the key comes from whatever the buffer holds; the mutex makes every call one step.
- UbxFramer.PollUbxData: the deadline, `select` and failed reads only decide which chunks arrive; writing the poll and logging frames are left out.
- GPS log rotation, antenna recording, serial setup and the large poll tables: file I/O and finite data.
- `driver/`, `mcast/`, `mqtt/`, `speedtest/`, `script/usb`, `libevent/` and editor and shell configuration: kernel or library plumbing, vendored code, or trivial loops.
