# Druid's storage layers, modelled and proved

Druid stacks block devices on one another: a Reed-Solomon code, a parity array over several
devices, a checksum layer, a lazily zeroed device, a thin partitioner, a byte interface, and a
network block device server on top. This project models the code of those parts in Dafny and
proves what they are for.

Run `dafny verify dfyconfig.toml` in this directory.

## What is proved

- **Reed-Solomon** (`Bits` ... `Reversal`). `EncodeEraseDecode`: for every n > 1, m > 0 with n + m <
  255, every data vector and every mask with exactly n symbols left, decoding returns the data. On
  the way: the log tables generated by doubling realise GF(2^8) modulo 0435 (octal), every n rows of
  the matrix stay independent through the column operations, no pivot search can fail, and every row
  operation keeps the pair of matrices in step. The code is that of polynomials: data that are the
  values of one with n coefficients at the first n points, scaled by the points, are followed by its
  values at the later ones; that determines the generator.
- **CRC-32C** (`Crc`). The table-driven loop is the bit-serial register of the reflected polynomial
  of section 12.1 of RFC 3720; it composes over concatenation; a change inside four consecutive
  bytes of a block of any length always changes it. Every message followed by its checksum leaves
  the same residue, which fixes start value and inversion.
- **Verification layer** (`VerifyLayout`, `Devices`, `VerifyFormat`, `VerifyDevice`). The address
  map is a bijection onto the non-hash blocks, in order; what stands on the base is given byte by
  byte; a corrupted data block is refused. What reading, writing and dropping the cached hash block
  do to every other block is proved exactly, on any base. Whatever I/O fails, a read that succeeds
  returns what was last written with success, or what lay under the block to begin with, and the
  trace of the run says which fault each write had and why each read was refused; on steady devices
  every read is exact, and on a base that never fails the layer is a plain array.
- **Parity layer** (`Parity`, `XorLayout`, `Happenings`, `XorDevice`, `XorRuns`). The layout is
  determined: parity moves one device to the right with every slice, logical blocks fill the slices
  in order, and a block that is written and flushed lies where that says. Any run of reads, writes,
  flushes and clearing of caches, on devices that may fail at any time, base devices or verified
  ones over bases that fail themselves, comes with a trace of what happened to the devices: every
  write to one of them, with what went wrong, every read and every dropped cache, each with its
  cause. On any devices a request is refused exactly when the slice it needs is not cached and
  misses two blocks, or when two writes of the slice that has to make room have failed; a refused
  request leaves no trace. As long as the events are innocent, every other request is answered as by
  a plain array, so that a run in which none is refused is one of a plain array; and none is refused
  while no slice of steady devices misses two blocks, nor when only one device ever fails. Innocent
  is an event by which no block comes to show anything but what was last written there; the array
  ceases to be honest exactly at the first that is not. There are two kinds. A write fails and
  leaves an old block that passes for the new one. Or a block comes back that was refused: a
  verified device puts zeros in the place of a hash block it has lost, or a failed write has left an
  old hash block, the cached one disagrees with it, and the old one is loaded again. Both kinds
  happen with the code as it is; the exact conditions are proved, and inputs for both ways of coming
  back. From devices whose hash blocks can be read nothing of the kind happens as long as every
  write succeeds or loses its data block. Over verified devices whose base blocks, data or hashes,
  are silently corrupted between requests, one per slice at a time, no request fails and every read
  returns the last value written.
- **Byte interface** (`ByteAccess`). Both loops refine a flat byte array, also when a block read or
  write fails half-way, over devices on which a block changes only when it is written.
- **Block cache and lazily zeroed device** (`BlockCache`, `CacheRuns`, `LazyZero`, `LazyRuns`,
  `LazyBytes`, `LazyFormat`). The cache agrees with a plain block map; when writing a block back
  fails, it is what the base still holds, or nothing, and no other block changes. A write to the
  lazily zeroed device changes what is shown at one place, and a refused one leaves everything as it
  was unless its data block was lost; a lost bitmap block takes back what was initialised since it
  was written, and one that cannot be read counts as not set. Whole runs of both, and writes of
  bytes to the device, are followed step by step on bases that fail, up to the blocks that are lost;
  while none is lost they are runs of a plain array. Three promises do not hold of the code, and the
  exact conditions under which they do are proved: writing an uncached block through the cache;
  writing from the layer's own buffer, which is what the byte interface does with the last block of
  a write and with a first one entered in the middle; and creating a device that reads as zeros and
  can be opened again.
- **Partitioner** (`Endian`, `ThinMap`, `Partitioner`, `PartitionRuns`). Over devices on which a
  block changes only when it is written: whatever I/O fails during a write, no data block is in use
  twice after it and no other block of any partition changes. The next allocation is safe as well
  exactly when the bitmap write succeeded or lost its block; when it left the old bitmap, two
  entries can come to share a block. Where failed writes erase, any run keeps the allocations safe,
  and a read that succeeds returns the last value written unless a write of that block has failed
  since; the trace of the disk says what every read returns, and why a write was refused. Without
  failures every answer is determined: a partition is an array that takes its storage from a common
  stock, a write being refused exactly when its block is new and the stock is empty. On a verified
  base that loses hash blocks a lost bitmap block can come back as zeros; that is safe exactly when
  nothing it stands for is in use.
- **NBD server** (`NbdParser`, `NbdServer`). Requests, answers and greeting are given byte by byte,
  and the device calls with them. How the byte stream is cut into chunks makes no difference. A
  stream of well-formed requests is answered request by request if and only if none of them is for
  no bytes inside the device: the device binding raises an error on such a request, nothing catches
  it, and the server ends for every client.

## How the model reads the source

- A device is an array of blocks, each readable or not. `Bdev` is a base device, or the verification
  layer over a base it owns. A write that fails leaves its block unreadable or as it was; on a
  device marked `erasing` always unreadable, on one marked `keeping` always as it was. A read that
  fails leaves the caller's buffer alone. A device marked `reliable` has no failing I/O; otherwise
  any write may fail at any time, except those to the hash blocks of a device marked `hashSafe`. On
  a `Separate` device a block changes only when it is written; a `Steady` one erases as well. What a
  device shows is `View`; contents of a whole device are `Contents`. A `Dev` is a device as a value,
  for stating what happens to it step by step.
- `PlainArray` is the reference for whole runs: in a `SoundRun` every successful read returns the
  last value written; in an `ExactRun` moreover no request fails unless the block was unreadable to
  begin with. In a `FaultyRun` reads are exact and a failed write loses its block.
- Bytes are numbers below 256, with exclusive or defined bit by bit and proved to be that of the
  machine; words of the checksum are machine words.
- The comment at `src/layers/xor.c:22-23` calls the order of the blocks of the parity device
  column-major; the code at `src/layers/xor.c:119-124` goes through them slice by slice, and the
  model follows it.
- Where a loop of the source is split over several methods here, each piece keeps the loop's order
  of reads, writes and branches.
- The parser's numbers are exact. The scripting language rounds offsets above 2^53, which compare
  with the size of the device in the same way, as that is far below 2^53.

## Model

| member | source | states |
|---|---|---|
| Bits.XorIsMachineXor | src/rs/galois_field.h:12-14 | exclusive or on numbers is exclusive or on machine bytes |
| GaloisField.MulAssoc | src/rs/galois_field.h:16-24 | the product of polynomials modulo x^8+x^4+x^3+x^2+1 is associative |
| GaloisField.MulComm | src/rs/galois_field.h:16-24 | it is commutative |
| GaloisField.MulXorLeft | src/rs/galois_field.h:12-24 | it distributes over addition |
| GaloisField.MulNonzero | src/rs/galois_field.h:16-24 | a product is zero exactly when a factor is |
| GaloisField.MulIsRemainder | src/rs/galois_field.c:10-18 | the product is the remainder of the product of the polynomials modulo x^8+x^4+x^3+x^2+1, written out |
| GaloisField.OrderIs255 | src/rs/galois_field.c:10-18 | no smaller positive power of 2 than the 255th is 1 |
| GaloisField.ExpPeriods | src/rs/galois_field.c:10-18 | the 255th power of 2 is 1, and the powers at the proper divisors are not |
| GaloisField.ExpInjective | src/rs/galois_field.c:10-18 | the powers below 255 are distinct |
| GaloisField.ExpSurjective | src/rs/galois_field.c:10-18 | every nonzero element is one of them |
| GaloisTables.GfInitialize | src/rs/galois_field.c:7-18 | the loop leaves tables of powers and logarithms; the two entries it never writes keep their value |
| GaloisTables.Shifted | src/rs/galois_field.c:15-16 | shift and reduction by 0435 double an element of the field |
| GaloisTables.LogOfNonzero | src/rs/galois_field.c:10-18 | the two tables are inverse to each other on nonzero elements |
| GaloisTables.GfMult | src/rs/galois_field.h:16-24 | multiplication through the tables is the product of polynomials |
| GaloisTables.GfDiv | src/rs/galois_field.h:26-34 | quotient times divisor is the dividend; division by zero gives zero |
| Polynomials.FewRoots | src/rs/reed_solomon.c:21-37 | a nonzero polynomial with n coefficients has fewer than n roots |
| MdsCode.InitialRowRoot | src/rs/reed_solomon.c:21-37 | a row of the initial matrix annihilates the polynomials that vanish at the row's number |
| MdsCode.InitialEvaluates | src/rs/reed_solomon.c:21-37 | the initial matrix maps the coefficients of a polynomial to its values at 0, 1, 2, ..., each but the first times its point |
| MdsCode.InitialIsMds | src/rs/reed_solomon.c:21-37 | a nonzero vector is annihilated by fewer than n rows of the initial matrix |
| MdsCode.InitialIsSeparated | src/rs/reed_solomon.c:21-37 | for each of the first n rows some nonzero vector is annihilated by all the others among them |
| MdsCode.MdsKept | src/rs/reed_solomon.c:52-85 | column operations keep every n rows independent |
| MdsCode.SeparatedKept | src/rs/reed_solomon.c:52-85 | and keep the first n rows separated |
| MdsCode.ColumnPivotExists | src/rs/reed_solomon.c:39-50 | the search for a pivot column cannot fail its assertion |
| MdsCode.SelectedRowsIndependent | src/rs/reed_solomon.c:129-139 | the rows of any n surviving symbols have a trivial kernel |
| MdsCode.SelectPlace | src/rs/reed_solomon.c:129-139 | what survives stays in order: its place is the number of survivors before it |
| LinearAlgebra.DotAct | src/rs/reed_solomon.c:52-85 | the product of an operated row with a vector is the product of the row with the vector under the transposed operation |
| LinearAlgebra.ActInverse | src/rs/reed_solomon.c:52-85 | swaps, nonzero scalings and additions are invertible |
| LinearAlgebra.ApplyActRows | src/rs/reed_solomon.c:156-194 | a row operation on a matrix acts on its products |
| ReedSolomon.FillInitial | src/rs/reed_solomon.c:21-37 | the first loop fills in row 0 as (1, 0, ..., 0) and row i as (i, i^2, ..., i^n) |
| ReedSolomon.SwapColumns | src/rs/reed_solomon.c:52-58 | the loop swaps two whole columns |
| ReedSolomon.ScaleColumn | src/rs/reed_solomon.c:66-69 | the loop scales one column |
| ReedSolomon.AddColumn | src/rs/reed_solomon.c:79-82 | the loop adds a multiple of one column to another |
| ReedSolomon.FindColumn | src/rs/reed_solomon.c:43-50 | the first column to the right with a nonzero entry |
| ReedSolomon.MakePivot | src/rs/reed_solomon.c:40-72 | makes the pivot 1 and keeps the rows above it unit rows |
| ReedSolomon.ClearRow | src/rs/reed_solomon.c:74-85 | makes the pivot's row a unit row |
| ReedSolomon.RsCreate | src/rs/reed_solomon.c:11-89 | the matrix is the initial one after invertible column operations, has the identity on top, and every n rows independent; it encodes polynomials: their values at the first n points become those at all points |
| ReedSolomon.SystematicEncodes | src/rs/reed_solomon.c:11-89 | which code it is: the values of any polynomial at the first n points, scaled by the points, are encoded as its values at all of them, and every data vector is such values |
| ReedSolomon.OneCode | src/rs/reed_solomon.c:11-89 | no two matrices do that, so that the generator is determined |
| ReedSolomon.SmallestCode | src/rs/reed_solomon.c:21-85 | for two data symbols and one checksum its rows are (1, 0), (0, 1), (6, 4) |
| Reversal.RowPivotExists | src/rs/reed_solomon.c:146-154 | the search for a pivot row cannot fail its assertion |
| Reversal.SolvingStep | src/rs/reed_solomon.c:141-195 | a row operation on both matrices keeps right times A equal to left, left with trivial kernel, and the solved columns |
| Reversal.SwapRows | src/rs/reed_solomon.c:156-166 | the loop swaps two rows in both matrices |
| Reversal.ScaleRows | src/rs/reed_solomon.c:170-179 | the loop scales a row in both |
| Reversal.AddRows | src/rs/reed_solomon.c:187-191 | the loop adds a multiple of a row to another in both |
| Reversal.FindRow | src/rs/reed_solomon.c:147-154 | the first row below with a nonzero entry |
| Reversal.MakeRowPivot | src/rs/reed_solomon.c:144-180 | makes the pivot 1 and keeps the invariant |
| Reversal.ClearColumn | src/rs/reed_solomon.c:182-194 | solves one more column |
| Reversal.CopySurvivors | src/rs/reed_solomon.c:129-139 | the rows of the surviving symbols, in order |
| Reversal.RsCreateReversal | src/rs/reed_solomon.c:113-201 | the result maps the surviving symbols of any codeword to its data |
| Reversal.RsApply | src/rs/reed_solomon.c:96-102 | the loops compute the product of a block of rows with the input |
| Reversal.RsApplyChecksum | src/rs/reed_solomon.c:105-107 | data followed by the checksums is the whole codeword, so encoding leaves the data as it is; data that are the values of a polynomial are followed by its later values |
| Reversal.RsApplyReversal | src/rs/reed_solomon.c:109-111 | the product with the reversal matrix |
| Reversal.EncodeEraseDecode | src/rs/reed_solomon.c:11-201 | any n of the n + m symbols recover the data |
| Crc.TableIsBitSerial | src/crc.c:23-88 | each of the 256 table entries is eight steps of the reflected register |
| Crc.TableStep | src/crc.c:124-125 | one round of the loop feeds the eight bits of a byte to the register |
| Crc.CrcUpdate | src/crc.c:119-130 | the loop is the bit-serial register over the message |
| Crc.CalcCrc32 | src/crc.h:58-92 | initial value, loop and final inversion give the checksum, which `Crc.Residue` and `Crc.CheckValue` pin down |
| Crc.RegisterConcat | src/crc.c:119-130 | the register composes over concatenation |
| Crc.RegisterInjective | src/crc.c:119-130 | different registers stay different over the same message |
| Crc.BurstDetected | src/crc.c:119-130 | a change inside at most four consecutive bytes changes the checksum |
| Crc.Residue | src/crc.h:58-92 | the register, started from all ones, of any message followed by its checksum, low byte first, ends in 0xb798b438 |
| Crc.CheckValue | src/crc.h:58-92 | the checksum of the digits 1 to 9 is 0xe3069283 |
| Crc.CreateZeroCrc | src/layers/verify.c:51-69 | sixteen bytes at a time gives the checksum of one zero block, for every block size |
| Crc.UnpackPack | src/endian-fns.h:17-45 | reading a stored checksum returns it |
| Crc.UnpackInjective | src/endian-fns.h:40-45 | different bytes are different checksums |
| Crc.PackBe32Is | src/endian-fns.h:17-22 | the four bytes of a stored word, most significant first, make up its value |
| Crc.UnpackBe32Is | src/endian-fns.h:40-45 | and the word that is read from any four bytes has the value they make up |
| VerifyLayout.DataAddrInRange | src/layers/verify.c:80-83 | hash and data addresses of a logical block are on the base, for every base size |
| VerifyLayout.DataAddrInjective | src/layers/verify.c:80-83 | no two logical blocks share a base block, and none is a hash block |
| VerifyLayout.DataAddrSurjective | src/layers/verify.c:208-217 | every base block that is not a hash block holds a logical block |
| VerifyLayout.DataAddrOrder | src/layers/verify.c:80-83 | data blocks are in logical order, each after its own hash block with no other in between |
| VerifyLayout.RoomForData | src/layers/verify.c:208-221 | a base of two blocks or more has room for data, also with a trailing hash block |
| Devices.StoredMatches | src/layers/verify.c:130-132 | a block passes the checksum just stored for it |
| Devices.BurstHidesBlock | src/layers/verify.c:91-105 | a data block changed inside four bytes is refused |
| Devices.Bdev.LoadHash | src/layers/verify.c:85-89 | brings a hash block into the cache; a failed read leaves tag and cache as they were |
| Devices.Bdev.LoadHashOrZero | src/layers/verify.c:119-128 | a hash block that cannot be read is taken to be zeros |
| Devices.LoadKeepsView | src/layers/verify.c:85-89 | loading another hash block leaves a block as it was or hides it if and only if it is not one that the cached hash block refuses and the one on the base passes |
| Devices.LeftHashComesBack | src/layers/verify.c:85-89 | an input on which a read brings a block back: a write failed and left the old hash block, another one is loaded, and the block shows what it did before the write |
| Devices.LoadShows | src/layers/verify.c:119-132 | getting hold of the hash block for a write brings back exactly the blocks that `RevivesIn` names |
| Devices.Bdev.VerifyRead | src/layers/verify.c:76-108 | succeeds exactly when hash and data can be read and agree, and returns the data; every other block shows what it did or nothing, except exactly those that loading the hash block brings back |
| Devices.Bdev.VerifyWrite | src/layers/verify.c:110-141 | a success is on the base, hash and data, and verifies as what was written; every other block shows what it did or nothing, except exactly those that `Revives` names; a failure leaves its block lost, or stale exactly when old data with the new checksum is still there; the new state is that of one of the faults a write can have |
| Devices.ZeroFillShows | src/layers/verify.c:119-132 | putting zeros in the place of a lost hash block brings back exactly the readable blocks with the checksum of a zero block |
| Devices.ZeroFillBringsBack | src/layers/verify.c:119-132 | an input on which a block that was lost reads as the zeros it held before its last write |
| Devices.HashHidesBlock | src/layers/verify.c:91-105 | a changed checksum in a hash block makes its block refused, and no other |
| Devices.WriteKeepsClean | src/layers/verify.c:110-141 | a write that succeeds or loses its data block keeps hash blocks readable and the cache true, and brings nothing back |
| VerifyFormat.WriteLands | src/layers/verify.c:110-141 | what a successful write leaves on the base, byte by byte: the data in its place, and in the four bytes at its place in its hash block, most significant first, the checksum less that of a zero block |
| VerifyFormat.ReadNeeds | src/layers/verify.c:76-108 | a block shows exactly when hash block and data can be read and these four bytes are its checksum less that of a zero block |
| VerifyFormat.ReadLoads | src/layers/verify.c:85-89 | a read leaves just the hash block it needed in the cache, if that can be read, and dropping the cache leaves none |
| Devices.Bdev.WriteBlock | src/layers/verify.c:110-141 | the same for base devices and verified ones; on a reliable base, or one that erases and keeps its hash blocks, no other block is affected |
| Devices.Bdev.ClearCaches | src/layers/verify.c:156-160 | forgetting the cached hash block brings back exactly the blocks that it refuses and the one on the base passes; on a reliable base, or one that erases and keeps its hash blocks, nothing that is shown changes |
| VerifyDevice.VerifyCreate | src/layers/verify.c:167-230 | refuses one block and blocks below four bytes; otherwise at least one block of data |
| VerifyDevice.ZeroBaseReadsZero | src/layers/verify.c:16-34 | an all-zero base is a valid device of zeros |
| VerifyDevice.UnderAfter | src/layers/verify.c:76-141 | whatever goes wrong, what lies under a block changes only when a write of it succeeds, or is lost, and nothing else is ever shown |
| VerifyDevice.ServeAll | src/layers/verify.c:76-165 | every run on any base, whatever fails, returns what was last written with success or lay under the block at first, and leads step by step through states that each request makes, reads being refused exactly when hash or data cannot be read or disagree; on steady devices reads are exact, a failed write losing its block; on a base that never fails it is the plain array |
| XorLayout.CellInRange | src/layers/xor.c:119-127 | data and parity of a block are on different devices of the array |
| XorLayout.CellInjective | src/layers/xor.c:139-151 | no two logical blocks share a cell |
| XorLayout.CellSurjective | src/layers/xor.c:14-26 | every cell that is not parity holds a logical block |
| XorLayout.ParityMoves | src/layers/xor.c:14-26 | parity is on the first device in slice 0 and moves one device to the right with every slice, wrapping round |
| XorLayout.RowMajorOrder | src/layers/xor.c:119-127 | logical blocks fill the slices from left to right, one slice after the other |
| Parity.OthersRebuild | src/layers/xor.c:70-82 | in a slice that cancels each block is the exclusive or of the others |
| Parity.OthersIgnore | src/layers/xor.c:76-78 | what stood in place of the rebuilt block does not matter |
| Parity.RewrittenCancels | src/layers/xor.c:158-164 | the incremental parity update keeps the slice cancelling |
| XorLayer.OneBlockChanged | src/layers/xor.c:139-168 | rewriting a cell and its parity changes one logical block of the whole device |
| XorLayer.RebuiltPart | src/layers/xor.c:104-105 | the rebuilt part completes the slice as it was |
| Happenings.ToldOn | src/layers/xor.c:46-113 | accounts of what happened to the devices compose, and the array stays honest through both exactly when it does through each |
| Happenings.TidyIsGood | src/layers/xor.c:46-113 | from devices whose hash blocks can be read, nothing comes back while every write succeeds or loses its data block |
| Happenings.FailedOn | src/layers/xor.c:55-63 | the failed writes of a slice, which is what the source counts, add up over successive events |
| XorLayer.XorDevice.WritePart | src/layers/xor.c:55-63 | one block of one device; the array stays honest exactly when the write brings no block back and leaves no stale one, whatever the cached hash block |
| XorLayer.XorDevice.FlushSlice | src/layers/xor.c:46-68 | writes the rows of the buffer to device after device, to the last or to the second write that fails; succeeds exactly when at most one has failed; after a success the slice on the devices is the cached one with at most one block missing, after a failure it is lost where failed writes erase |
| XorLayer.XorDevice.RebuildSlicePart | src/layers/xor.c:70-82 | the loops rebuild the failed part from the others |
| XorLayer.XorDevice.RepairPart | src/layers/xor.c:104-108 | the missing part is rebuilt as it was and written back to its device, once |
| XorLayer.XorDevice.LoadSlice | src/layers/xor.c:94-113 | reads device after device, and writes back the one part that is missing, if any; fails exactly when two blocks are gone |
| XorLayer.XorDevice.SwitchSlice | src/layers/xor.c:84-113 | succeeds exactly when the wanted slice is cached, or does not miss two blocks and at most one write of the dirty slice in the way has failed; what is cached and dirty afterwards is exact in every case; slices not concerned show what they did, or less |
| XorLayer.XorDevice.ReadAll | src/layers/xor.c:96-102 | reads device after device, to the last or to the second block that is missing; succeeds exactly when no two are |
| XorLayer.XorDevice.ReadBlock | src/layers/xor.c:115-137 | fails exactly when the slice is not cached and misses two blocks, or two writes of the dirty slice in the way have failed; a successful read of an honest array returns the logical block; the array stays honest exactly when all that happened to the devices was innocent; no contents ever change |
| XorLayer.XorDevice.WriteBlock | src/layers/xor.c:139-168 | fails in the same cases exactly; a successful write changes one logical block, a failed one none |
| XorLayer.XorDevice.AdjustParity | src/layers/xor.c:160-162 | the loop computes the new parity part and touches no other |
| XorLayer.XorDevice.Flush | src/layers/xor.c:188-195 | succeeds exactly when at most one write has failed; the slice on the devices is then the cached one, at most one block missing |
| XorLayer.XorDevice.ClearCaches | src/layers/xor.c:178-186 | the device stays usable exactly when no slice is left marked dirty: at most one write of the flush it ignores has failed, or nothing was dirty |
| XorRuns.MinDriveSize | src/layers/xor.c:225-232 | the size of the smallest device |
| XorRuns.XorOpen | src/layers/xor.c:205-279 | refuses fewer than three devices and unequal block sizes, and nothing else; the array is honest when the devices hold slices that cancel, each readable block being what it should |
| XorRuns.ZeroDevicesHold | src/layers/xor.c:11-12 | all-zero devices are a valid array of zeros |
| XorRuns.LiesAt | src/layers/xor.c:115-168 | an honest array of n devices holds block w in slice w / (n - 1), on the device that w % (n - 1) counts when the one of parity, slice % n, is left out: in the buffer while the slice is cached, and on the device unless the slice misses two blocks or waits to be written |
| XorRuns.WriteFlushed | src/layers/xor.c:139-195 | a block that is written and flushed with success is on that device, or is the one block its slice misses |
| XorRuns.TurnGenuine | src/layers/xor.c:84-168 | what an operation may do, seen from outside: it is refused exactly when the slice it needs misses two blocks or two writes of the dirty slice in its way have failed, and on steady devices no slice is lost but that one |
| XorRuns.Serve | src/layers/xor.c:115-195 | one request on any devices: the events it caused lead from what was seen before to what is seen after; it is refused exactly when it is blocked by a lost slice or by two failed writes, and then changes no contents; while the events are innocent a success is a step of a plain array |
| XorRuns.ClearAll | src/layers/xor.c:178-186 | clearing the caches changes no contents and drops every cached slice and hash block; the device stays usable exactly when no dirty slice was left behind by two failed writes |
| XorRuns.ServeCall | src/layers/xor.c:115-195 | the same of requests and of clearing the caches |
| XorRuns.SingleFailure | src/layers/xor.c:46-113 | whatever a single device does during a run, no slice is ever lost |
| XorRuns.ServeAll | src/layers/xor.c:115-195 | any run of reads, writes, flushes and clearing of caches on any devices, with the trace of what happened to them: refused requests leave no trace, and up to the first event that is not innocent all others are answered as by a plain array; it ends early only at a clearing that leaves a dirty slice behind |
| XorRuns.RefusedExactly | src/layers/xor.c:46-113 | along such a run, on any devices, a request is refused exactly when its slice is not cached and misses two blocks or two writes of the slice in its way have failed; that never happens where no slice is lost and the devices are steady or no two can fail |
| XorRuns.InnocentRun | src/layers/xor.c:115-195 | a run of innocent events is one of a plain array; on any devices it is exact when no request meets a lost slice or one in its way that two failed writes have stopped, and so when a single device is all that may fail or miss anything |
| XorRuns.TidyRun | src/layers/xor.c:115-195 | a run in which every write succeeds or loses its data block is one of innocent events, from devices whose hash blocks can be read |
| XorRuns.TryCorrupt | src/layers/verify.c:91-105 | a change inside four bytes of a base block under a complete slice takes effect, and makes one block of it unreadable; otherwise nothing happens |
| XorRuns.TryCorruptHash | src/layers/verify.c:91-105 | the same of a hash block, each block whose checksum changes becoming unreadable |
| XorRuns.ServeCorrupted | src/layers/xor.c:84-195 | over verified devices, clearing of caches included, corruption of data and hash blocks of the base, one block per slice at a time, takes effect at every step of the trace and is never noticed by a reader |
| PlainArray.LastWrite | src/layers/xor.c:139-168 | the reference array returns the last value written |
| PlainArray.ReplayStep | src/layers/xor.c:115-168 | runs of the reference array are built request by request |
| PlainArray.FaultyIsSound | src/layers/verify.c:76-165 | exact reads from an array that loses a block when a write of it fails are sound, and exact for the plain array when none fails |
| ByteAccess.ReadBytes | src/bdev.c:6-50 | returns the slice of the flat view, and fails exactly when a touched block cannot be read; over devices on which a block changes only when it is written |
| ByteAccess.WriteBytes | src/bdev.c:52-93 | replaces exactly the range; on failure a prefix of it, the block whose write failed being lost or as it was; over the same devices |
| ByteAccess.WriteThenRead | src/bdev.c:6-93 | reading back a range that was written returns what was written |
| BitVector.BitSet | src/bitvector.h:6-10 | sets one bit and no other |
| BitVector.BitClear | src/bitvector.h:18-22 | clears one bit and no other |
| BitVector.BitGetIs | src/bitvector.h:12-16 | bit i is that of value 2^(i % 8) in byte i / 8 |
| BlockCaching.EvictKeeps | src/block-cache.c:68-76 | evicting shows the same block, or what its write back has made of the base |
| BlockCaching.EvictSetsBack | src/block-cache.c:68-76 | exactly the block whose write back failed is lost: it is what the base still holds, or nothing |
| BlockCaching.FillKeeps | src/block-cache.c:78-93 | filling an empty slot changes nothing that is shown |
| BlockCaching.StoreChangesOne | src/block-cache.c:95-105 | storing into a cached block changes what is shown of it only |
| BlockCaching.MixValues | src/block-cache.c:20-29 | two values of the hash that picks the slot of a block |
| BlockCaching.BlockCache.Create | src/block-cache.c:31-57 | an empty cache shows the base |
| BlockCaching.BlockCache.Evict | src/block-cache.c:68-76 | empties a slot; only the block that was in it can be lost, if it had changed, and is then what the base holds or nothing |
| BlockCaching.BlockCache.ReadBlock | src/block-cache.c:78-93 | succeeds exactly when the block is cached or readable, and then it is cached as it was; of the others only the one that made room can be lost |
| BlockCaching.BlockCache.WriteBlock | src/block-cache.c:95-105 | the cache stays coherent exactly when the block was cached already; then one block changes |
| BlockCaching.BlockCache.Flush | src/block-cache.c:112-115 | the base then holds what the cache shows, which is what it showed but for blocks whose write back failed |
| BlockCaching.BlockCache.Clear | src/block-cache.c:107-110 | the same, with the cache empty |
| CacheRuns.ServeAll | src/block-cache.c:78-115 | every run of reads, updates and flushes on a base that may fail, step by step: up to blocks whose write back failed, reads return what is shown, updates change one block and are refused exactly where there is nothing, and after a flush the base holds what is shown; nothing is lost on a base that never fails |
| CacheRuns.LosslessRun | src/block-cache.c:78-115 | a run that loses no block is that of the plain block map, and no request fails when all of it could be read at first |
| LazyZeroing.ChunkInRange | src/layers/lazyzero.c:48-53 | the chunk of a block, and its bit, are in range, also for a short last chunk |
| LazyZeroing.MapInjective | src/layers/lazyzero.c:52-53 | no two chunks share a bit |
| LazyZeroing.ClearingInvisible | src/layers/lazyzero.c:78-90 | zeroing a chunk whose bit is not set shows nowhere |
| LazyZeroing.SettingInvisible | src/layers/lazyzero.c:61-76 | setting the bit of a zeroed chunk shows nowhere |
| LazyZeroing.WritingShowsOne | src/layers/lazyzero.c:105-118 | writing a block of a set chunk shows at one place |
| LazyZeroing.ShowsFrom | src/layers/lazyzero.c:48-103 | where bits and data are: the bit of a chunk counted from base block 0, its block of data after header and bitmap |
| LazyZeroing.StoredAsGiven | src/layers/lazyzero.c:78-118 | a successful write stores what it was given exactly when the buffer was not the layer's own, or the chunk was set, or the data was zero |
| LazyZeroing.SetBackShows | src/layers/lazyzero.c:48-59 | when bitmap blocks are lost, a chunk is initialised if the base had it so and reads as zeros otherwise, also when the block cannot be read any more; chunks of other bitmap blocks show what they did |
| LazyZeroing.LazyZero.ChunkUsable | src/layers/lazyzero.c:48-59 | the chunk's bit as the cache shows it; an unreadable bitmap counts as not set |
| LazyZeroing.LazyZero.SetChunkUsable | src/layers/lazyzero.c:61-76 | sets that bit in the cached bitmap and no other |
| LazyZeroing.LazyZero.ClearChunk | src/layers/lazyzero.c:78-90 | zeroes the chunk's blocks that exist, and nothing else |
| LazyZeroing.LazyZero.ReadBlock | src/layers/lazyzero.c:92-103 | zeros in a chunk that is not set, be it that its bitmap block cannot be read, and the base block otherwise, exactly as shown before and after; nothing shown changes unless a write back fails |
| LazyZeroing.LazyZero.WriteBlock | src/layers/lazyzero.c:105-118 | every other block shows what it did, up to bitmap blocks whose write back failed, never that of the chunk; a failed write leaves the block as it was or unreadable, where failed writes leave the old block everything as it was, and where they erase it fails only when the bit cannot be set or a block of the chunk is gone |
| LazyZeroing.LazyZero.Flush | src/layers/lazyzero.c:134-138 | writing the bitmap back shows nowhere unless a write back fails, and leaves the base holding it |
| LazyRuns.ServeAll | src/layers/lazyzero.c:92-144 | every run of reads, writes and flushes on a base that may fail, step by step: up to bitmap blocks whose write back failed, reads return what is shown, writes change one block, and where failed writes erase they are refused only when the chunk is impaired; on a base that never fails nothing is lost and no write refused |
| LazyRuns.LosslessRun | src/layers/lazyzero.c:92-144 | a run that loses no bitmap block is sound for the plain array of what was shown at first; unless a write is refused it is that array |
| LazyBytes.PutPart | src/bdev.c:64-78 | a write of part of a block, through the layer's own buffer, stores the part in a chunk that was initialised and zeros in one that was not, up to bitmap blocks whose write back failed; where failed writes erase, it fails only when the block cannot be read or the chunk is impaired |
| LazyBytes.PartStoredExactly | src/bdev.c:64-78 | so that it is stored exactly when the chunk was initialised or the part is zeros |
| LazyBytes.ArrivesExactly | src/bdev.c:52-93 | the bytes of a write arrive as they are exactly when all those are zeros that go through the buffer while their chunk is being initialised |
| LazyBytes.WriteBytes | src/bdev.c:52-93 | a whole write to the lazily zeroed device is its pieces one after the other, on a base that may fail; while no bitmap block is lost, what arrives of it is shown at its place and nothing else changes, after a failure a prefix; on a base that never fails it fails exactly when a block it must read first cannot be |
| LazyFormat.LazyzeroCreate | src/layers/lazyzero.c:146-188 | refuses blocks below 32 bytes and fewer than three of them; writes the header and zeroes blocks 2 to the number of bitmap blocks plus 1, leaving block 1 and all behind; over devices on which a block changes only when it is written |
| LazyFormat.BitmapFits | src/layers/lazyzero.c:156-161 | the bitmap has a bit for every chunk and leaves room for data |
| LazyFormat.CreatedIs | src/layers/lazyzero.c:156-161 | chunks are of 1024 blocks, and the bitmap is the least one with a bit for every chunk of the blocks behind the header |
| LazyFormat.HeaderIs | src/layers/lazyzero.c:163-172 | the header byte by byte: LAZY0000, then blocks of the base, blocks of the bitmap and blocks to a chunk, most significant byte first |
| LazyFormat.FreshReadsZero | src/layers/lazyzero.c:48-59 | a new device reads as zeros whatever the base held exactly when it has at most 2048 blocks |
| LazyFormat.OpensExactly | src/layers/lazyzero.c:212-242 | a header opens as a layout exactly when its fields are those of the layout and the layout fits the base |
| LazyFormat.OpensAsCreated | src/layers/lazyzero.c:212-242 | a header opens as what was created exactly when its first 32 bytes are intact |
| LazyFormat.ReopensAfterWrite | src/layers/lazyzero.c:212-242 | after a chunk's bit is set in the header, that holds exactly when the bit was set or lies in the padding |
| LazyFormat.FirstWriteBreaksReopen | src/layers/lazyzero.c:61-76 | a write to the first chunk of a new device always spoils the header |
| Endian.UnpackSmall | src/endian-fns.h:6-38 | unpacking what was packed returns the number |
| Endian.PackUnpack | src/endian-fns.h:6-38 | packing what was unpacked returns the bytes |
| Endian.PackIsBigEndian | src/endian-fns.h:6-22 | byte i of n is the number divided by 256^(n - 1 - i), modulo 256 |
| Endian.UnpackHead | src/endian-fns.h:24-45 | the first byte counts most |
| Endian.UnpackFour | src/endian-fns.h:40-45 | the number in four bytes, written out |
| Endian.PackLoop | lua-examples/nbd-server.lua:18-34 | the script's loop packs as the C code does |
| Endian.UnpackLoop | lua-examples/nbd-server.lua:36-50 | and unpacks as it does |
| ThinMap.MarkEffect | src/layers/partitioner.c:189-204 | rewriting one bit of the bitmap changes the state of one block and no map entry |
| ThinMap.SetEntryEffect | src/layers/partitioner.c:253-266 | rewriting one entry changes that entry only and no bit of the bitmap |
| ThinMap.BitmapPlace | src/layers/partitioner.c:152-175 | the bitmap starts behind the header, is the least that has a bit for every block, and bit b is the one of block b |
| ThinMap.MapPlace | src/layers/partitioner.c:232-251 | the map follows, is the least that has room for all entries, and holds entry i as the i-th eight bytes, filling each block from its start |
| ThinMap.EntriesInARow | src/layers/partitioner.c:232-251 | where blocks are a multiple of eight bytes long, entry i is bytes 8i to 8i + 8 of the whole map |
| ThinMap.FreeIs | src/layers/partitioner.c:167-187 | a block is free exactly when its bit can be read and is 0, bits counted from the least significant one |
| ThinMap.EntryIs | src/layers/partitioner.c:245-251 | an entry is stored most significant byte first |
| ThinMap.LosingIsSafe | src/layers/partitioner.c:205-265 | losing a metadata block keeps allocations disjoint and only hides blocks |
| ThinMap.Overwrite | src/layers/partitioner.c:482-505 | overwriting a mapped block changes one logical block of one partition |
| ThinMap.Allocate | src/layers/partitioner.c:489-502 | giving a free block to an empty entry keeps allocations disjoint and in the data area; nothing in use is marked free afterwards exactly when the bitmap was written or its block is lost |
| ThinMap.SharingExactly | src/layers/partitioner.c:489-498 | a block written into the map keeps allocations disjoint exactly when no other entry points to it |
| ThinMap.SharedAfterFailure | src/layers/partitioner.c:489-502 | how two entries come to share a block: the bitmap write fails, leaves the old bitmap, and the next scan finds the block again |
| ThinMap.RevivedExactly | src/layers/partitioner.c:189-212 | a lost bitmap block that comes back as zeros is safe exactly when none of the blocks it stands for is in use |
| Partitioning.Partition.OpenBitmapBlockFor | src/layers/partitioner.c:152-165 | the cached bitmap block is then the one on the base; fails exactly when it cannot be read |
| Partitioning.Partition.ScanFreeBlock | src/layers/partitioner.c:167-187 | terminates with the first free block from the cursor round, where the cursor then stands, or with 0 exactly when blocks 1 and up are all used; without a result the cursor stays unless the bitmap cannot be read where it stands |
| Partitioning.Partition.MarkBlockAs | src/layers/partitioner.c:189-212 | rewrites one bit of the bitmap on the base, or fails and loses that bitmap block or leaves it |
| Partitioning.Partition.OpenMapBlockFor | src/layers/partitioner.c:232-243 | the cached map block is then the one on the base; fails exactly when it cannot be read |
| Partitioning.Partition.BlockMaploc | src/layers/partitioner.c:245-251 | the entry on the base, or 1 when it cannot be read |
| Partitioning.EntryNotOne | src/layers/partitioner.c:245-251 | 1 never exists in a map |
| Partitioning.Partition.BlockSetMaploc | src/layers/partitioner.c:253-266 | rewrites one entry on the base, or fails and loses that map block or leaves it |
| Partitioning.Partition.ReadBlock | src/layers/partitioner.c:466-480 | zeros where nothing was written, the mapped block otherwise |
| Partitioning.Partition.WriteBlock | src/layers/partitioner.c:482-505 | over devices on which a block changes only when it is written: an empty entry gets the first free block from the cursor round and any other keeps its own; allocations stay disjoint whatever fails, and nothing in use is marked free after a success or where failed writes erase; after a failure the block shows what it did, nothing, or what was in the free block it has been given; where failed writes erase, it is refused only when the block shows nothing afterwards, or it was new and metadata is gone or no block was free; without failures one block changes, at most one is taken from the free ones, and the write is refused only when none is free |
| Partitioning.Partition.AllocateFor | src/layers/partitioner.c:489-502 | the entry gets the first block from the cursor round that was free, the only one no longer free; after a failure the block given may still be marked free, which is then the only such block |
| Partitioning.Partition.ClearCaches | src/layers/partitioner.c:521-526 | forgets the cached blocks and those of the base; nothing on the base changes |
| Partitioning.Partition.Initialize | src/layers/partitioner.c:302-311 | afterwards exactly the header and the metadata are marked used |
| PartitionRuns.EmptyShowsZeros | src/layers/partitioner.c:38-41 | a partition with an empty map shows zeros |
| PartitionRuns.WriteIsNext | src/layers/partitioner.c:482-505 | a write without failures is a step of an array that takes its storage from a common stock |
| PartitionRuns.ThinIsPlain | src/layers/partitioner.c:466-505 | that array is the plain array but for refused writes, which leave no trace |
| PartitionRuns.RoomForAll | src/layers/partitioner.c:489-495 | no write is refused as long as the new blocks fit into the free ones |
| PartitionRuns.ServeAll | src/layers/partitioner.c:466-526 | on a base that never fails every answer is that of this array: reads are exact, a write is refused exactly when its block is new and none is free, and no other partition changes |
| PartitionRuns.ServeFailing | src/layers/partitioner.c:466-526 | on a base whose failed writes lose the block, whatever fails: a read returns exactly what the disk shows, which is what was last written unless a write of that block has failed since, or nothing; a write is refused only when it is hindered; allocations stay safe, and other partitions show what they did or nothing |
| NbdParser.StepShrinks | lua-examples/nbd-server.lua:85-202 | every round of check_buffer consumes bytes or leaves the writedata state, so it terminates |
| NbdParser.WireBytes | lua-examples/nbd-server.lua:9-18 | a request byte by byte: magic number, command, handle, offset and length, most significant byte first, and data |
| NbdParser.ChunksDoNotMatter | lua-examples/nbd-server.lua:211-215 | feeding a stream in chunks does what feeding it whole does, also when a device call raises an error |
| NbdParser.OneRequest | lua-examples/nbd-server.lua:85-202 | the bytes of a request are parsed back to it; it is answered, or, when it is for no bytes inside the device, ends the program |
| NbdParser.AnsweredIsLogged | lua-examples/nbd-server.lua:140-202 | what answering a request adds to the log, byte by byte: inside the device the call with offset and length or data, and an answer with magic number, code 0 exactly when the device succeeded, handle, and the data of a read; outside it a failure |
| NbdParser.RequestLogged | lua-examples/nbd-server.lua:85-202 | a request that arrives on its own adds just that, or ends the program |
| NbdParser.StreamAnswered | lua-examples/nbd-server.lua:85-202 | a stream of well-formed requests, cut anywhere, is answered request by request if and only if none is for no bytes inside the device |
| NbdParser.StreamEnds | src/lua/bind-bdevs.c:64-112 | the first request for no bytes inside the device ends the program after those before it were answered, and nothing behind it has any effect |
| NbdParser.EmptyReadRaises | src/lua/bind-bdevs.c:76-78 | an input that does: a read of no bytes at the start of any device |
| NbdParser.StreamClosed | lua-examples/nbd-server.lua:92-138 | a disconnect, a malformed start or a length above the limit closes the connection after what came before it was answered, and the rest has no effect |
| NbdServing.Server.Nibble | lua-examples/nbd-server.lua:75-83 | takes bytes from the front of one buffer |
| NbdServing.Server.CheckBuffer | lua-examples/nbd-server.lua:85-202 | does all that the buffered bytes allow on one connection and touches no other |
| NbdServing.GreetingBytes | lua-examples/nbd-server.lua:68-73 | the greeting byte by byte |
| NbdServing.Server.OnRead | lua-examples/nbd-server.lua:212-215 | feeds one connection; a closed one ignores it, and so does every one when the program has ended |
| NbdServing.Server.OnConnect | lua-examples/nbd-server.lua:62-73 | a new connection is reset and greeted, also on a socket id that was in use before |
| NbdServing.Server.OnStream | lua-examples/nbd-server.lua:211-215 | a whole stream in chunks is the stream at once |

## Left out

- Bdev: the verification layer owns its base as a sequence of blocks instead of pointing to another device object; aliasing of one base by two layers is not captured.
- XorRuns.ServeAll: promises nothing of reads after the first event that is not innocent; on a base device whose failed writes leave the old block that is the case the comment at `src/layers/xor.c:50-51` leaves open.
- XorRuns.TryCorruptHash: the hash block that is cached is not corrupted; the layer would go on with the cached one, and the corruption show when it is loaded again.
- ByteAccess.WriteBytes: over devices on which a block changes only when it is written; that shuts out a verified base that can lose a hash block or be left with an old one, where other blocks can come back. `Devices.LoadShows` says which. The same holds of `ByteAccess.ReadBytes`.
- BlockCaching.BlockCache.Create: likewise, and so all that is said of the cache and the lazily zeroed device on it.
- Partitioning.Partition.WriteBlock: likewise, and so all that is said of partitions; `ThinMap.RevivedExactly` says when a bitmap block that comes back as zeros is safe.
- XorLayer.XorDevice.Flush: needs a cached slice, as the assertion at `src/layers/xor.c:48` does; `sync` is the same with a further call to each device.
- XorLayer.XorDevice.ClearCaches: on an array with nothing cached the source fails the assertion at `src/layers/xor.c:48`, and runs leave such an array alone; after two failed writes the next switch of slices fails it, and runs end there.
- `xor_close` does not flush; runs end without closing.
- BlockCaching.BlockCache.CachedBlock: returns the bytes of a cached block, where the source returns a pointer into the cache; changing the bytes in place before `bcache_write_block` is modelled by handing the changed bytes over.
- LazyZeroing.LazyZero.Open: takes the layout as a parameter; the header is parsed by `LazyFormat.OpenLayout`.
- LazyFormat.OpenLayout: on a header with chunk size 0 or more bitmap than device, where the source divides by zero or wraps around, it refuses.
- Partitioning.Partition.Open: takes layout, offset and size of the partition as parameters; `partitioner_get_partition_offset` adds up the size of the wrong partition (`src/layers/partitioner.c:227`).
- Partitioning.Partition.MarkBlockAs: does not keep the total of used blocks, whose population count has wrong constants (`src/bitvector.h:28`).
- Partitioning.Partition.Initialize: writing and reading back the header of a device without partitions is not part of it.
- `partitioner_set_part_size`: blocks may be moved into the area being vacated, and its test for a full device looks at the wrong variable (`src/layers/partitioner.c:366-367`).
- NbdServing.Server.OnRead: a device call is an event in a log, answered by any function of all that happened before; the device itself is not part of this model. The error callback of the script is not either.
- NbdServing.Server.OnConnect: requires that the program still runs, as no callback is made once it has ended.
- 64-bit overflow of block counts and addresses: devices have fewer than 2^64 - 1 blocks and addresses are unbounded numbers.
- Allocation failures, closing and freeing, log messages.
- `crc_reflect`, which nothing calls.
- The base I/O, encryption, slice, stripe, concatenation and network layers, the event loop and the Lua bindings: library calls, or index arithmetic that would only add easy members.
