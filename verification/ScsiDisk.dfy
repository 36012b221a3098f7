/** From a block request to the command block a disk gets: the request is clipped to its partition,
    relocated, and encoded. Decoding is as in sections 9.2.5 (READ(6)) and 9.2.6 (READ(10)) of SCSI-2,
    ANSI X3.131-1994, and their WRITE counterparts, which also fix the layout of the block. */
module ScsiDisk {
  import opened Common

  const DEV_BYTES_PER_SECTOR := 512
  const WORD := 0x1_0000_0000

  datatype Operation = Read | Write

  /** The part of the disk a request addresses: a partition, or the whole disk with firstSector 0.
      `lun` is the unit number. */
  datatype Partition = Partition(firstSector: nat, sizeInSectors: nat, lun: nat)

  /** A 32-bit sector address reaches all of it. */
  predicate PartitionOk(p: Partition) {
    p.firstSector + p.sizeInSectors < WORD && p.lun < 8
  }

  /** What becomes of a request: it ends at once with nothing moved, cannot be sent, or is sent as a
      command for `bytes` bytes. */
  datatype Outcome = DoneAtOnce | NotSent | Sent(command: seq<byte>, bytes: nat)

  /** What a disk does with a command block. */
  datatype Meaning = Meaning(op: Operation, lun: nat, lba: nat, sectors: nat)

  // ------------------------------------------------------------------ decoding, as the standard says

  function Decode(c: seq<byte>): Option<Meaning> {
    if |c| == 6 && (c[0] == 0x08 || c[0] == 0x0a) then
      Some(Meaning(if c[0] == 0x08 then Read else Write, c[1] as nat / 32,
                   c[1] as nat % 32 * 0x1_0000 + c[2] as nat * 0x100 + c[3] as nat,
                   if c[4] == 0 then 256 else c[4] as nat))
    else if |c| == 10 && (c[0] == 0x28 || c[0] == 0x2a) then
      Some(Meaning(if c[0] == 0x28 then Read else Write, c[1] as nat / 32,
                   c[2] as nat * 0x100_0000 + c[3] as nat * 0x1_0000 + c[4] as nat * 0x100 + c[5] as nat,
                   c[7] as nat * 0x100 + c[8] as nat))
    else None
  }

  // ------------------------------------------------------------------ encoding, as the driver does

  lemma UnitAndAddress(lun: nat, high: nat)
    requires lun < 8 && high < 32
    ensures lun * 32 + high < 0x100 && (lun * 32 + high) / 32 == lun && (lun * 32 + high) % 32 == high
  {
  }

  lemma AddressParts(n: nat)
    requires n <= 0x1fffff
    ensures n / 0x1_0000 < 32 && n / 0x1_0000 * 0x1_0000 + n / 0x100 % 0x100 * 0x100 + n % 0x100 == n
  {
  }

  /** DevScsiGroup0Cmd; the block's count is one byte. */
  method Group0Cmd(lun: nat, cmd: nat, blockNumber: nat, countNumber: nat) returns (c: Option<seq<byte>>)
    requires lun < 8 && cmd <= 0x1f
    ensures c.Some? <==> blockNumber <= 0x1fffff && countNumber <= 0x100
    ensures c.Some? ==>
              && |c.value| == 6 && c.value[0] as nat == cmd && c.value[5] == 0
              && c.value[1] as nat == lun * 32 + blockNumber / 0x1_0000
              && c.value[2] as nat == blockNumber / 0x100 % 0x100 && c.value[3] as nat == blockNumber % 0x100
              && c.value[4] as nat == if countNumber == 0x100 then 0 else countNumber
    ensures c.Some? && (cmd == 0x08 || cmd == 0x0a) ==>
              Decode(c.value) == Some(Meaning(if cmd == 0x08 then Read else Write, lun, blockNumber,
                                              if countNumber == 0 then 256 else countNumber))
  {
    if blockNumber > 0x1fffff {
      return None;
    }
    if countNumber > 0x100 {
      return None;
    }
    var highAddr := blockNumber / 0x1_0000;
    var midAddr := blockNumber / 0x100 % 0x100;
    var lowAddr := blockNumber % 0x100;
    AddressParts(blockNumber);
    UnitAndAddress(lun, highAddr);
    var unitAndHigh := lun * 32 + highAddr;
    var block := [cmd as byte, unitAndHigh as byte, midAddr as byte, lowAddr as byte, (countNumber % 0x100) as byte, 0];
    return Some(block);
  }

  lemma LongAddressParts(n: nat)
    requires n < WORD
    ensures n / 0x100_0000 < 0x100
    ensures n / 0x100_0000 * 0x100_0000 + n / 0x1_0000 % 0x100 * 0x1_0000 + n / 0x100 % 0x100 * 0x100 + n % 0x100 == n
  {
    var a, b := n / 0x100, n / 0x1_0000;
    assert b == a / 0x100 && n / 0x100_0000 == b / 0x100;
    assert n == a * 0x100 + n % 0x100;
    assert a == b * 0x100 + a % 0x100;
    assert b == b / 0x100 * 0x100 + b % 0x100;
  }

  lemma CountParts(n: nat)
    requires n <= 0xffff
    ensures n / 0x100 < 0x100 && n / 0x100 * 0x100 + n % 0x100 == n
  {
  }

  /** The ten-byte block. */
  method ExtendedCmd(lun: nat, op: Operation, firstSector: nat, count: nat) returns (c: seq<byte>)
    requires lun < 8 && firstSector < WORD && count <= 0xffff
    ensures Decode(c) == Some(Meaning(op, lun, firstSector, count))
    ensures |c| == 10 && c[0] == (if op == Read then 0x28 else 0x2a) && c[1] as nat == lun * 32
    ensures c[2] as nat == firstSector / 0x100_0000 && c[3] as nat == firstSector / 0x1_0000 % 0x100
    ensures c[4] as nat == firstSector / 0x100 % 0x100 && c[5] as nat == firstSector % 0x100
    ensures c[7] as nat == count / 0x100 && c[8] as nat == count % 0x100 && c[6] == 0 && c[9] == 0
  {
    var highAddr, highMidAddr := firstSector / 0x100_0000, firstSector / 0x1_0000 % 0x100;
    var lowMidAddr, lowAddr := firstSector / 0x100 % 0x100, firstSector % 0x100;
    var highCount, lowCount := count / 0x100, count % 0x100;
    LongAddressParts(firstSector);
    CountParts(count);
    UnitAndAddress(lun, 0);
    c := [if op == Read then 0x28 else 0x2a, (lun * 32) as byte, highAddr as byte, highMidAddr as byte,
          lowMidAddr as byte, lowAddr as byte, 0, highCount as byte, lowCount as byte, 0];
  }

  /** What a disk makes of a count of 0 in a command for this address. */
  function Counted(firstSector: nat, length: nat): nat {
    if length == 0 && firstSector <= 0x1fffff then 256 else length
  }

  /** SendCmdToDevice. */
  method SendCmd(lun: nat, op: Operation, firstSector: nat, lengthInSectors: nat) returns (r: Outcome)
    requires lun < 8 && firstSector < WORD
    ensures r.Sent? <==> if firstSector <= 0x1fffff then lengthInSectors <= 256 else lengthInSectors <= 65535
    ensures !r.DoneAtOnce?
    ensures r.Sent? ==>
              && Decode(r.command) == Some(Meaning(op, lun, firstSector, Counted(firstSector, lengthInSectors)))
              && r.bytes == lengthInSectors * DEV_BYTES_PER_SECTOR
  {
    if firstSector <= 0x1fffff {
      var c := Group0Cmd(lun, if op == Read then 0x08 else 0x0a, firstSector, lengthInSectors);
      if c == None {
        return NotSent;
      }
      return Sent(c.value, lengthInSectors * DEV_BYTES_PER_SECTOR);
    }
    if lengthInSectors > 0xffff {
      return NotSent;
    }
    var c := ExtendedCmd(lun, op, firstSector, lengthInSectors);
    return Sent(c, lengthInSectors * DEV_BYTES_PER_SECTOR);
  }

  // ------------------------------------------------------------------ a request

  /** The sectors a request asks for, as far as the partition goes. */
  function Clipped(p: Partition, first: nat, length: nat): (n: nat)
    ensures n <= length && first + n <= Max(first, p.sizeInSectors)
    ensures n < length ==> first + n >= p.sizeInSectors
  {
    if first + length <= p.sizeInSectors then length
    else if first < p.sizeInSectors then p.sizeInSectors - first else 0
  }

  /** The length that BlockIOProc arrives at. The comparison is of unsigned 32-bit numbers, so that for
      an empty request at sector 0 the left side is the largest there is. */
  function LengthOf(p: Partition, first: nat, length: nat): nat
    requires first < p.sizeInSectors
  {
    if (first + length - 1) % WORD >= p.sizeInSectors then p.sizeInSectors - first else length
  }

  lemma LengthIsClipped(p: Partition, first: nat, length: nat)
    requires PartitionOk(p) && first < p.sizeInSectors && length < 0x80_0000 && first < 0x80_0000
    ensures LengthOf(p, first, length) == (if first + length == 0 then p.sizeInSectors else Clipped(p, first, length))
  {
  }

  /** BlockIOProc. */
  method BlockIO(p: Partition, op: Operation, startAddress: nat, bufferLen: nat) returns (r: Outcome)
    requires PartitionOk(p) && startAddress < WORD && bufferLen < WORD
    ensures var first, length := startAddress / DEV_BYTES_PER_SECTOR, bufferLen / DEV_BYTES_PER_SECTOR;
            var at := p.firstSector + first;
            if first >= p.sizeInSectors then r == DoneAtOnce else
            var n := LengthOf(p, first, length);
            && (r.Sent? <==> if at <= 0x1fffff then n <= 256 else n <= 65535) && !r.DoneAtOnce?
            && (r.Sent? ==> Decode(r.command) == Some(Meaning(op, p.lun, at, Counted(at, n))) && r.bytes == n * 512)
  {
    var firstSector := startAddress / DEV_BYTES_PER_SECTOR;
    var lengthInSectors := bufferLen / DEV_BYTES_PER_SECTOR;
    if firstSector >= p.sizeInSectors {
      return DoneAtOnce;
    }
    if (firstSector + lengthInSectors - 1) % WORD >= p.sizeInSectors {
      lengthInSectors := p.sizeInSectors - firstSector;
    }
    r := SendCmd(p.lun, op, firstSector + p.firstSector, lengthInSectors);
  }

  /** The sectors a command touches lie in the partition. */
  predicate Inside(p: Partition, m: Meaning) {
    p.firstSector <= m.lba && m.lba + m.sectors <= p.firstSector + p.sizeInSectors
  }

  /** What a disk is told for a request that starts in the partition and can be sent. */
  function Told(p: Partition, op: Operation, first: nat, length: nat): Meaning
    requires first < p.sizeInSectors
  {
    var at := p.firstSector + first;
    Meaning(op, p.lun, at, Counted(at, LengthOf(p, first, length)))
  }

  /** The command means the clipped, relocated request exactly when the request is not empty, or is
      past sector 0 of its partition and beyond the reach of the six-byte command. Then it also stays
      inside the partition. */
  lemma ToldIsAsked(p: Partition, op: Operation, first: nat, length: nat)
    requires PartitionOk(p) && first < p.sizeInSectors && length < 0x80_0000 && first < 0x80_0000
    ensures Told(p, op, first, length) == Meaning(op, p.lun, p.firstSector + first, Clipped(p, first, length))
            <==> length > 0 || (first > 0 && p.firstSector + first > 0x1fffff)
    ensures length > 0 ==> Inside(p, Told(p, op, first, length))
  {
    LengthIsClipped(p, first, length);
  }

  /** An empty request near the end of a partition makes the disk go past it. */
  lemma EmptyRequestLeavesPartition()
    ensures exists p: Partition :: PartitionOk(p) && p.sizeInSectors == 10 && !Inside(p, Told(p, Write, 5, 0))
  {
    var p := Partition(0, 10, 0);
    assert Told(p, Write, 5, 0) == Meaning(Write, 0, 5, 256);
  }
}
