/**
 * The FOTA flash adapter and update session (bootable/recovery/fota/fota.c).
 *
 * The process-wide `gFota` becomes the class FotaGlobals; the porting
 * callbacks the patch engine calls (RB_ReadImage, RB_WriteBlock, the backup
 * block calls, RB_GetDelta, RB_Progress) and the session steps
 * (fota_init, mount_partitions, find_*_update_file,
 * install_fota_delta_package) are its methods. A flash partition as the MTD
 * driver sees it is a Medium; every driver transfer succeeds unless its
 * `fault` argument says the driver failed or it runs past the medium.
 */
module Fota {
  import opened Common
  import opened FotaSpec

  /** The bytes of one flash partition. */
  class Medium {
    var data: seq<Byte>

    constructor (content: seq<Byte>)
      ensures data == content
    {
      data := content;
    }
  }

  /** The paths that lstat finds and unlink removes. */
  class FileSystem {
    var files: set<string>

    constructor (present: set<string>)
      ensures files == present
    {
      files := present;
    }
  }

  /** memcpy of `src` into `dst` at `at`. */
  method CopyBytes(dst: array<Byte>, at: nat, src: seq<Byte>)
    requires at + |src| <= dst.Length
    modifies dst
    ensures dst[at..at + |src|] == src
    ensures forall j :: 0 <= j < dst.Length && !(at <= j < at + |src|) ==> dst[j] == old(dst[j])
  {
    var k := 0;
    while k < |src|
      invariant 0 <= k <= |src|
      invariant forall j :: at <= j < at + k ==> dst[j] == src[j - at]
      invariant forall j :: 0 <= j < dst.Length && !(at <= j < at + k) ==> dst[j] == old(dst[j])
    {
      dst[at + k] := src[k];
      k := k + 1;
    }
  }

  /**
   * remove_file: unlink `root + file`; a missing file counts as removed.
   * `denied` is an unlink failure other than ENOENT.
   */
  method RemoveFile(fs: FileSystem, root: string, file: string, denied: bool) returns (ok: bool)
    modifies fs
    ensures ok <==> root + file !in old(fs.files) || !denied
    ensures ok ==> root + file !in fs.files
    ensures fs.files == if ok then old(fs.files) - {root + file} else old(fs.files)
  {
    var path := root + file;
    if path in fs.files {
      if denied {
        return false;
      }
      fs.files := fs.files - {path};
      return true;
    }
    return true;
  }

  /** The process-wide session state `gFota`, plus the engine's working buffer. */
  class FotaGlobals {
    // Partition handles found by name (a non-NULL pointer).
    var bootPartition: bool
    var systemPartition: bool
    var recoveryPartition: bool
    var dataPartition: bool
    var backupPartition: bool

    var bootInfo: PartitionInfo
    var systemInfo: PartitionInfo
    var recoveryInfo: PartitionInfo
    var backupInfo: PartitionInfo

    // Payload paths (malloc'd strings, NULL when absent).
    var bootDeltaFile: Option<string>
    var systemDeltaFile: Option<string>
    var recoveryDeltaFile: Option<string>

    // The engine's active target.
    var partition: Option<Part>
    var partitionInfo: PartitionInfo
    var deltaFile: Option<string>

    var uProgress: nat
    var uRound: nat
    var mode: Mode

    /** `upi_working_buffer` is allocated and not yet freed. */
    var workingBuffer: bool

    /** The partition half of gFota after `memset(&gFota, 0, ...)`. */
    predicate HandlesZeroed()
      reads this
    {
      && !bootPartition && !systemPartition && !recoveryPartition && !dataPartition && !backupPartition
      && bootInfo == ZeroInfo && systemInfo == ZeroInfo && recoveryInfo == ZeroInfo && backupInfo == ZeroInfo
    }

    /** The payload and engine half of gFota after the same memset. */
    predicate TargetZeroed()
      reads this
    {
      && bootDeltaFile.None? && systemDeltaFile.None? && recoveryDeltaFile.None?
      && partition.None? && partitionInfo == ZeroInfo && deltaFile.None?
      && uProgress == 0 && uRound == 0 && mode == ModeUnknown
    }

    /** The whole of gFota is zero. */
    predicate Zeroed()
      reads this
    {
      HandlesZeroed() && TargetZeroed()
    }

    /** No payload path is held. */
    predicate NoPayloadPaths()
      reads this
    {
      bootDeltaFile.None? && systemDeltaFile.None? && recoveryDeltaFile.None?
    }

    /** A static object starts zeroed. */
    constructor ()
      ensures Zeroed() && !workingBuffer
    {
      bootPartition, systemPartition, recoveryPartition, dataPartition, backupPartition :=
        false, false, false, false, false;
      bootInfo, systemInfo, recoveryInfo, backupInfo := ZeroInfo, ZeroInfo, ZeroInfo, ZeroInfo;
      bootDeltaFile, systemDeltaFile, recoveryDeltaFile := None, None, None;
      partition, partitionInfo, deltaFile := None, ZeroInfo, None;
      uProgress, uRound, mode := 0, 0, ModeUnknown;
      workingBuffer := false;
    }

    method ResetHandles()
      modifies this`bootPartition, this`systemPartition, this`recoveryPartition, this`dataPartition,
               this`backupPartition, this`bootInfo, this`systemInfo, this`recoveryInfo, this`backupInfo
      ensures HandlesZeroed()
    {
      bootPartition, systemPartition, recoveryPartition, dataPartition, backupPartition :=
        false, false, false, false, false;
      bootInfo, systemInfo, recoveryInfo, backupInfo := ZeroInfo, ZeroInfo, ZeroInfo, ZeroInfo;
    }

    method ResetTarget()
      modifies this`bootDeltaFile, this`systemDeltaFile, this`recoveryDeltaFile, this`partition,
               this`partitionInfo, this`deltaFile, this`uProgress, this`uRound, this`mode
      ensures TargetZeroed()
    {
      bootDeltaFile, systemDeltaFile, recoveryDeltaFile := None, None, None;
      partition, partitionInfo, deltaFile := None, ZeroInfo, None;
      uProgress, uRound, mode := 0, 0, ModeUnknown;
    }

    /** fota_init: zero the whole of gFota; it cannot fail. */
    method Init() returns (ok: bool)
      modifies this
      ensures ok && Zeroed()
      ensures workingBuffer == old(workingBuffer)
    {
      ResetHandles();
      ResetTarget();
      ok := true;
    }

    // -------------------------------------------------------------------
    // Session steps
    // -------------------------------------------------------------------

    /**
     * mount_partitions: look up data, boot, system and recovery, read the
     * geometry of the last three, and insist that boot and system share an
     * erase size. The backup partition is never looked up.
     */
    method MountPartitions(dev: Device) returns (ok: bool)
      modifies this`dataPartition, this`bootPartition, this`systemPartition, this`recoveryPartition,
               this`bootInfo, this`systemInfo, this`recoveryInfo
      ensures ok <==> MountSucceeds(dev)
      ensures ok ==> dataPartition && bootPartition && systemPartition && recoveryPartition
      ensures ok ==> bootInfo == InfoOf(dev, BootPartName) && systemInfo == InfoOf(dev, SystemPartName)
                     && recoveryInfo == InfoOf(dev, RecoveryPartName)
    {
      if dev.scanCount <= 0 {
        return false;
      }
      dataPartition := DataPartName in dev.catalog;
      if !dataPartition {
        return false;
      }
      bootPartition := BootPartName in dev.catalog;
      if !bootPartition || dev.catalog[BootPartName].StatError? {
        return false;
      }
      bootInfo := dev.catalog[BootPartName].info;
      systemPartition := SystemPartName in dev.catalog;
      if !systemPartition || dev.catalog[SystemPartName].StatError? {
        return false;
      }
      systemInfo := dev.catalog[SystemPartName].info;
      recoveryPartition := RecoveryPartName in dev.catalog;
      if !recoveryPartition || dev.catalog[RecoveryPartName].StatError? {
        return false;
      }
      recoveryInfo := dev.catalog[RecoveryPartName].info;
      if bootInfo.eraseSize != systemInfo.eraseSize {
        return false;
      }
      return true;
    }

    /**
     * The body shared by find_delta_update_file and find_image_update_file:
     * record `folder + name` for each of the three names that lstat finds,
     * then succeed iff any of the three path fields is set.
     */
    method FindUpdateFiles(fs: FileSystem, folder: string, boot: string, system: string, recovery: string)
      returns (ok: bool)
      modifies this`bootDeltaFile, this`systemDeltaFile, this`recoveryDeltaFile
      ensures bootDeltaFile == if folder + boot in fs.files then Some(folder + boot) else old(bootDeltaFile)
      ensures systemDeltaFile == if folder + system in fs.files then Some(folder + system) else old(systemDeltaFile)
      ensures recoveryDeltaFile == if folder + recovery in fs.files then Some(folder + recovery) else old(recoveryDeltaFile)
      ensures ok <==> !NoPayloadPaths()
      ensures old(NoPayloadPaths()) ==>
                Payloads(bootDeltaFile, systemDeltaFile, recoveryDeltaFile) == Probe(fs.files, folder, boot, system, recovery)
    {
      if folder + boot in fs.files {
        bootDeltaFile := Some(folder + boot);
      }
      if folder + system in fs.files {
        systemDeltaFile := Some(folder + system);
      }
      if folder + recovery in fs.files {
        recoveryDeltaFile := Some(folder + recovery);
      }
      ok := !NoPayloadPaths();
    }

    /** find_delta_update_file. */
    method FindDeltaUpdateFile(fs: FileSystem, folder: string) returns (ok: bool)
      modifies this`bootDeltaFile, this`systemDeltaFile, this`recoveryDeltaFile
      ensures old(NoPayloadPaths()) ==>
                && Payloads(bootDeltaFile, systemDeltaFile, recoveryDeltaFile) == DeltaProbe(fs.files, folder)
                && (ok <==> SomeDeltaExists(fs.files, folder))
      ensures !old(NoPayloadPaths()) ==> ok
    {
      ok := FindUpdateFiles(fs, folder, BootDeltaFile, SystemDeltaFile, RecoveryDeltaFile);
    }

    /** find_image_update_file: the same search for the `.img` names, into the same fields. */
    method FindImageUpdateFile(fs: FileSystem, folder: string) returns (ok: bool)
      modifies this`bootDeltaFile, this`systemDeltaFile, this`recoveryDeltaFile
      ensures old(NoPayloadPaths()) ==>
                && Payloads(bootDeltaFile, systemDeltaFile, recoveryDeltaFile) == ImageProbe(fs.files, folder)
                && (ok <==> SomeImageExists(fs.files, folder))
      ensures !old(NoPayloadPaths()) ==> ok
    {
      ok := FindUpdateFiles(fs, folder, BootImageFile, SystemImageFile, RecoveryImageFile);
    }

    /**
     * find_all_update_file: mount the staging root, build the folder, prefer
     * delta payloads, fall back to image payloads, and set the mode.
     */
    method FindAllUpdateFile(fs: FileSystem, root: string, rootMountable: bool) returns (ok: bool)
      requires |root| > 0
      requires NoPayloadPaths()
      modifies this`bootDeltaFile, this`systemDeltaFile, this`recoveryDeltaFile, this`mode
      ensures ok <==> rootMountable && Discover(fs.files, Folder(root)).Some?
      ensures ok ==> (mode, Payloads(bootDeltaFile, systemDeltaFile, recoveryDeltaFile))
                     == Discover(fs.files, Folder(root)).value
      ensures !ok ==> mode == old(mode)
    {
      if !rootMountable {
        return false;
      }
      var folder := if root[|root| - 1] != '/' then root + "/" else root;
      var found := FindDeltaUpdateFile(fs, folder);
      if found {
        mode := ModeDelta;
        return true;
      }
      found := FindImageUpdateFile(fs, folder);
      if found {
        mode := ModeImage;
        return true;
      }
      return false;
    }

    /**
     * fota_update_boot: refuse without a boot payload, otherwise run the
     * engine once. The caller has made boot the active target: the RB_
     * callbacks the engine makes read `partition`, `partitionInfo` and
     * `deltaFile`.
     */
    method UpdateBoot(dev: Device) returns (status: RbStatus)
      requires partition == Some(BootPart) && partitionInfo == bootInfo && deltaFile == bootDeltaFile
      ensures status == if bootDeltaFile.None? then RbFailure else dev.bootEngine
    {
      if bootDeltaFile.None? {
        return RbFailure;
      }
      status := dev.bootEngine;
    }

    /**
     * fota_update_system: run the engine once on the system partition, which
     * the caller has made the active target; there is no payload check.
     */
    method UpdateSystem(dev: Device) returns (status: RbStatus)
      requires partition == Some(SystemPart) && partitionInfo == systemInfo && deltaFile == systemDeltaFile
      ensures status == dev.systemEngine
    {
      status := dev.systemEngine;
    }

    /** The FAIL label: release the payload paths, close the payload, free the working buffer. */
    method Cleanup()
      modifies this`bootDeltaFile, this`systemDeltaFile, this`recoveryDeltaFile, this`deltaFile,
               this`workingBuffer
      ensures NoPayloadPaths() && deltaFile.None? && !workingBuffer
    {
      bootDeltaFile, systemDeltaFile, recoveryDeltaFile := None, None, None;
      deltaFile := None;
      workingBuffer := false;
    }

    /**
     * The checks that open install_fota_delta_package: zero gFota, check the
     * engine version, mount the partitions and find the payloads.
     */
    method PrepareSession(root: string, dev: Device, fs: FileSystem) returns (ok: bool)
      requires |root| > 0
      modifies this
      ensures ok <==> && CheckUpiVersion(dev.upiVersion) && MountSucceeds(dev) && dev.rootMountable
                      && Discover(fs.files, Folder(root)).Some?
      ensures ok ==> (mode, Payloads(bootDeltaFile, systemDeltaFile, recoveryDeltaFile))
                     == Discover(fs.files, Folder(root)).value
      ensures !backupPartition && deltaFile.None?
      ensures workingBuffer == old(workingBuffer)
    {
      ok := Init();
      if !CheckUpiVersion(dev.upiVersion) {
        return false;
      }
      ok := MountPartitions(dev);
      if !ok {
        return false;
      }
      ok := FindAllUpdateFile(fs, root, dev.rootMountable);
    }

    /**
     * The delta branch of install_fota_delta_package: count the rounds, then
     * update boot and system in that order, stopping at the first engine
     * failure. The recovery payload is found but never applied.
     */
    method RunDeltaStages(dev: Device) returns (ret: InstallStatus)
      modifies this`uRound, this`partition, this`partitionInfo, this`deltaFile
      ensures uRound == Rounds(bootDeltaFile.Some?, systemDeltaFile.Some?)
      ensures ret == if bootDeltaFile.Some? && dev.bootEngine != RbSuccess then EngineFailed(dev.bootEngine)
                     else if systemDeltaFile.Some? && dev.systemEngine != RbSuccess then EngineFailed(dev.systemEngine)
                     else InstallSuccess
      ensures bootDeltaFile.Some? && (systemDeltaFile.None? || dev.bootEngine != RbSuccess) ==>
                partition == Some(BootPart) && partitionInfo == bootInfo && deltaFile == bootDeltaFile
      ensures systemDeltaFile.Some? && (bootDeltaFile.None? || dev.bootEngine == RbSuccess) ==>
                partition == Some(SystemPart) && partitionInfo == systemInfo && deltaFile == systemDeltaFile
      ensures bootDeltaFile.None? && systemDeltaFile.None? ==>
                partition == old(partition) && partitionInfo == old(partitionInfo) && deltaFile == old(deltaFile)
    {
      uRound := 0;
      if bootDeltaFile.Some? {
        uRound := uRound + StageRounds(true, VerifyBootSource, VerifyBootTarget);
      }
      if systemDeltaFile.Some? {
        uRound := uRound + StageRounds(true, VerifySystemSource, VerifySystemTarget);
      }
      if bootDeltaFile.Some? {
        partition, partitionInfo, deltaFile := Some(BootPart), bootInfo, bootDeltaFile;
        var status := UpdateBoot(dev);
        if status != RbSuccess {
          return EngineFailed(status);
        }
      }
      if systemDeltaFile.Some? {
        partition, partitionInfo, deltaFile := Some(SystemPart), systemInfo, systemDeltaFile;
        var status := UpdateSystem(dev);
        if status != RbSuccess {
          return EngineFailed(status);
        }
      }
      ret := InstallSuccess;
    }

    /**
     * install_fota_delta_package: the whole session. Every exit goes through
     * the FAIL cleanup; the result is the one ExpectedInstall prescribes.
     */
    method InstallFotaDeltaPackage(root: string, dev: Device, fs: FileSystem) returns (ret: InstallStatus)
      requires |root| > 0
      modifies this
      ensures ret == ExpectedInstall(dev, fs.files, root)
      ensures NoPayloadPaths() && deltaFile.None? && !workingBuffer
      ensures !backupPartition
      ensures ret != InstallError ==> mode == ModeDelta
      ensures ret != InstallError ==>
                uRound == Rounds(Folder(root) + BootDeltaFile in fs.files, Folder(root) + SystemDeltaFile in fs.files)
    {
      ret := InstallError;
      var ok := PrepareSession(root, dev, fs);
      if ok {
        workingBuffer := dev.bufferAvailable;
        if workingBuffer && mode == ModeDelta {
          DiscoveryPolicy(fs.files, Folder(root));
          ret := RunDeltaStages(dev);
        }
      }
      Cleanup();
    }

    // -------------------------------------------------------------------
    // Porting callbacks on the active partition
    // -------------------------------------------------------------------

    /** RB_GetBlockSize: the erase size of the active partition. */
    function GetBlockSize(): (size: nat)
      reads this
      ensures size == partitionInfo.eraseSize
    {
      partitionInfo.eraseSize
    }

    /**
     * The unaligned path of RB_ReadImage: read the whole containing 128 KiB
     * block, copy the first `head` bytes of its tail from `addr` on, and,
     * when more than the tail is wanted, read the rest from the next
     * boundary straight into the buffer after the tail.
     */
    method ReadUnaligned(flash: Medium, pbBuffer: array<Byte>, addr: nat, size: nat, head: nat,
                         fault1: bool, fault2: bool)
      returns (ok: bool)
      requires !Aligned(addr)
      requires head == PrevRead(addr) || head == size < PrevRead(addr)
      requires head <= pbBuffer.Length && size <= pbBuffer.Length
      modifies pbBuffer
      ensures ok == ImageReadSucceeds(|flash.data|, addr, size, fault1, fault2)
      ensures ok ==> addr + head <= |flash.data| && pbBuffer[..head] == flash.data[addr..addr + head]
      ensures ok ==> addr + size <= |flash.data| && pbBuffer[..size] == flash.data[addr..addr + size]
      ensures forall j :: head <= j < pbBuffer.Length && size <= j ==> pbBuffer[j] == old(pbBuffer[j])
    {
      var blockAddr := BlockAddr(addr);
      var offset := addr - blockAddr;
      var prevRead := PrevRead(addr);
      if !TransferOk(|flash.data|, blockAddr, ReadBlock, fault1) {
        return false;
      }
      var tmpBuf := flash.data[blockAddr..blockAddr + ReadBlock];
      assert blockAddr + offset == addr && offset + head <= ReadBlock;
      ghost var tail, wanted := tmpBuf[offset..offset + head], flash.data[addr..addr + head];
      forall k | 0 <= k < head
        ensures tail[k] == wanted[k]
      {
        assert tmpBuf[offset + k] == flash.data[blockAddr + offset + k];
      }
      assert tail == wanted;
      CopyBytes(pbBuffer, 0, tmpBuf[offset..offset + head]);
      if size > prevRead {
        if !TransferOk(|flash.data|, addr + prevRead, size - prevRead, fault2) {
          return false;
        }
        ghost var first := pbBuffer[..prevRead];
        CopyBytes(pbBuffer, prevRead, flash.data[addr + prevRead..addr + size]);
        assert pbBuffer[..prevRead] == first;
        assert pbBuffer[..size] == pbBuffer[..prevRead] + pbBuffer[prevRead..size];
        UnalignedComposition(flash.data, addr, size);
      } else {
        assert pbBuffer[..size] == pbBuffer[..head][..size];
      }
      return true;
    }

    /**
     * RB_ReadImage (NAND path): `dwSize` bytes of the active partition from
     * `dwStartAddress` into `pbBuffer`. Only the start address is range
     * checked. An aligned start takes one driver read; an unaligned start
     * copies all `prev_read` bytes of its block's tail, even when fewer
     * were asked for, so the buffer must hold CopyExtent bytes.
     */
    method ReadImage(flash: Medium, pbBuffer: array<Byte>, dwStartAddress: nat, dwSize: nat,
                     fault1: bool, fault2: bool)
      returns (status: RbStatus)
      requires dwStartAddress < partitionInfo.size ==> CopyExtent(dwStartAddress, dwSize) <= pbBuffer.Length
      modifies pbBuffer
      ensures dwStartAddress >= partitionInfo.size ==> status == RbBadParams && pbBuffer[..] == old(pbBuffer[..])
      ensures dwStartAddress < partitionInfo.size ==>
                status == (if ImageReadSucceeds(|flash.data|, dwStartAddress, dwSize, fault1, fault2)
                           then RbSuccess else RbFailure)
      ensures status == RbSuccess ==>
                && dwStartAddress + CopyExtent(dwStartAddress, dwSize) <= |flash.data|
                && pbBuffer[..CopyExtent(dwStartAddress, dwSize)]
                   == flash.data[dwStartAddress..dwStartAddress + CopyExtent(dwStartAddress, dwSize)]
      ensures status == RbSuccess ==> pbBuffer[..dwSize] == flash.data[dwStartAddress..dwStartAddress + dwSize]
      ensures forall j :: CopyExtent(dwStartAddress, dwSize) <= j < pbBuffer.Length ==> pbBuffer[j] == old(pbBuffer[j])
    {
      if dwStartAddress >= partitionInfo.size {
        return RbBadParams;
      }
      if Aligned(dwStartAddress) {
        if !TransferOk(|flash.data|, dwStartAddress, dwSize, fault1) {
          return RbFailure;
        }
        CopyBytes(pbBuffer, 0, flash.data[dwStartAddress..dwStartAddress + dwSize]);
        return RbSuccess;
      }
      var ok := ReadUnaligned(flash, pbBuffer, dwStartAddress, dwSize, PrevRead(dwStartAddress), fault1, fault2);
      return if ok then RbSuccess else RbFailure;
    }

    /**
     * RB_ReadImage as evidently intended: the unaligned path copies only as
     * much of the block's tail as was asked for, so nothing past `dwSize` is
     * written and the buffer need only hold `dwSize` bytes.
     */
    method ReadImageBounded(flash: Medium, pbBuffer: array<Byte>, dwStartAddress: nat, dwSize: nat,
                            fault1: bool, fault2: bool)
      returns (status: RbStatus)
      requires dwSize <= pbBuffer.Length
      modifies pbBuffer
      ensures dwStartAddress >= partitionInfo.size ==> status == RbBadParams && pbBuffer[..] == old(pbBuffer[..])
      ensures dwStartAddress < partitionInfo.size ==>
                status == (if ImageReadSucceeds(|flash.data|, dwStartAddress, dwSize, fault1, fault2)
                           then RbSuccess else RbFailure)
      ensures status == RbSuccess ==>
                dwStartAddress + dwSize <= |flash.data|
                && pbBuffer[..dwSize] == flash.data[dwStartAddress..dwStartAddress + dwSize]
      ensures forall j :: dwSize <= j < pbBuffer.Length ==> pbBuffer[j] == old(pbBuffer[j])
    {
      if dwStartAddress >= partitionInfo.size {
        return RbBadParams;
      }
      if Aligned(dwStartAddress) {
        if !TransferOk(|flash.data|, dwStartAddress, dwSize, fault1) {
          return RbFailure;
        }
        CopyBytes(pbBuffer, 0, flash.data[dwStartAddress..dwStartAddress + dwSize]);
        return RbSuccess;
      }
      var prevRead := PrevRead(dwStartAddress);
      var head := if dwSize < prevRead then dwSize else prevRead;
      var ok := ReadUnaligned(flash, pbBuffer, dwStartAddress, dwSize, head, fault1, fault2);
      return if ok then RbSuccess else RbFailure;
    }

    /**
     * RB_WriteBlock (NAND path): NULL data, a start off the erase grid and a
     * start past the partition are refused in that order with nothing
     * written; otherwise one erase-and-program of exactly one block.
     */
    method WriteBlock(flash: Medium, dwBlockAddress: nat, pbBuffer: Option<seq<Byte>>, fault: bool)
      returns (status: RbStatus)
      requires partitionInfo.eraseSize > 0
      requires pbBuffer.Some? ==> |pbBuffer.value| >= partitionInfo.eraseSize
      modifies flash
      ensures status == (if pbBuffer.None? then RbBadParams
                         else if dwBlockAddress % partitionInfo.eraseSize != 0 then RbBadParams
                         else if dwBlockAddress >= partitionInfo.size then RbBadParams
                         else if TransferOk(|old(flash.data)|, dwBlockAddress, partitionInfo.eraseSize, fault)
                         then RbSuccess else RbFailure)
      ensures status == RbSuccess ==>
                dwBlockAddress + partitionInfo.eraseSize <= |old(flash.data)|
                && flash.data == Overwrite(old(flash.data), dwBlockAddress, pbBuffer.value[..partitionInfo.eraseSize])
      ensures status != RbSuccess ==> flash.data == old(flash.data)
    {
      if pbBuffer.None? {
        return RbBadParams;
      }
      if dwBlockAddress % partitionInfo.eraseSize != 0 {
        return RbBadParams;
      }
      if dwBlockAddress >= partitionInfo.size {
        return RbBadParams;
      }
      if !TransferOk(|flash.data|, dwBlockAddress, partitionInfo.eraseSize, fault) {
        return RbFailure;
      }
      flash.data := Overwrite(flash.data, dwBlockAddress, pbBuffer.value[..partitionInfo.eraseSize]);
      return RbSuccess;
    }

    /**
     * RB_GetDelta: seek the open payload to `offset` and read `dwSize` bytes;
     * seeking past the end succeeds, and a short read is a failure.
     */
    method GetDelta(payload: seq<Byte>, pbBuffer: array<Byte>, offset: nat, dwSize: nat)
      returns (status: RbStatus)
      requires deltaFile.Some?
      requires dwSize <= pbBuffer.Length
      modifies pbBuffer
      ensures status == (if dwSize == 0 || offset + dwSize <= |payload| then RbSuccess else RbFailure)
      ensures status == RbSuccess && dwSize > 0 ==> pbBuffer[..dwSize] == payload[offset..offset + dwSize]
      ensures forall j :: dwSize <= j < pbBuffer.Length ==> pbBuffer[j] == old(pbBuffer[j])
    {
      var start := if offset < |payload| then offset else |payload|;
      var n := if dwSize < |payload| - start then dwSize else |payload| - start;
      CopyBytes(pbBuffer, 0, payload[start..start + n]);
      if n != dwSize {
        return RbFailure;
      }
      return RbSuccess;
    }

    /**
     * RB_Progress: report `(uProgress + uPercent) / (uRound * 100)` as a
     * numerator and denominator, then bank a finished step.
     */
    method Progress(uPercent: nat) returns (num: nat, den: nat)
      modifies this`uProgress
      ensures num == old(uProgress) + uPercent && den == uRound * 100
      ensures uProgress == ProgressStep(old(uProgress), uPercent)
    {
      num, den := uProgress + uPercent, uRound * 100;
      uProgress := ProgressStep(uProgress, uPercent);
    }

    // -------------------------------------------------------------------
    // Backup block callbacks
    // -------------------------------------------------------------------

    /**
     * RB_ReadBackupBlock: without a backup partition, a failure; otherwise
     * `while (retry--)` makes exactly two reads whatever the first returned,
     * leaves `retry` at -1, and so the `if (!retry)` failure is never taken.
     * Misalignment is only logged.
     */
    method ReadBackupBlock(backup: Medium, pbBuffer: array<Byte>, dwBlockAddress: nat, dwSize: nat,
                           fault1: bool, fault2: bool)
      returns (status: RbStatus)
      requires dwSize <= pbBuffer.Length
      modifies pbBuffer
      ensures status == BackupOutcome(backupPartition, 2)
      ensures status == if backupPartition then RbSuccess else RbFailure
      ensures !backupPartition ==> pbBuffer[..] == old(pbBuffer[..])
      ensures backupPartition && (TransferOk(|backup.data|, dwBlockAddress, dwSize, fault1)
                                  || TransferOk(|backup.data|, dwBlockAddress, dwSize, fault2)) ==>
                pbBuffer[..dwSize] == backup.data[dwBlockAddress..dwBlockAddress + dwSize]
      ensures forall j :: dwSize <= j < pbBuffer.Length ==> pbBuffer[j] == old(pbBuffer[j])
    {
      if !backupPartition {
        return RbFailure;
      }
      var retry: int := 2;
      var attempts := 0;
      while retry != 0
        invariant 0 <= retry <= 2 && attempts == 2 - retry
        invariant (attempts >= 1 && TransferOk(|backup.data|, dwBlockAddress, dwSize, fault1))
                  || (attempts == 2 && TransferOk(|backup.data|, dwBlockAddress, dwSize, fault2)) ==>
                    pbBuffer[..dwSize] == backup.data[dwBlockAddress..dwBlockAddress + dwSize]
        invariant forall j :: dwSize <= j < pbBuffer.Length ==> pbBuffer[j] == old(pbBuffer[j])
      {
        retry := retry - 1;
        var fault := if attempts == 0 then fault1 else fault2;
        if TransferOk(|backup.data|, dwBlockAddress, dwSize, fault) {
          CopyBytes(pbBuffer, 0, backup.data[dwBlockAddress..dwBlockAddress + dwSize]);
        }
        attempts := attempts + 1;
      }
      // The test that ends `while (retry--)` still decrements.
      retry := retry - 1;
      if retry == 0 {
        return RbFailure;
      }
      return RbSuccess;
    }

    /**
     * RB_ReadBackupBlock as evidently intended: at most two reads, stopping
     * at the first that returns the full length, and a failure only when
     * neither does.
     */
    method ReadBackupBlockChecked(backup: Medium, pbBuffer: array<Byte>, dwBlockAddress: nat, dwSize: nat,
                                  fault1: bool, fault2: bool)
      returns (status: RbStatus)
      requires dwSize <= pbBuffer.Length
      modifies pbBuffer
      ensures status == RbSuccess <==>
                backupPartition && (TransferOk(|backup.data|, dwBlockAddress, dwSize, fault1)
                                    || TransferOk(|backup.data|, dwBlockAddress, dwSize, fault2))
      ensures status != RbSuccess ==> status == RbFailure
      ensures status == RbSuccess ==> pbBuffer[..dwSize] == backup.data[dwBlockAddress..dwBlockAddress + dwSize]
      ensures forall j :: dwSize <= j < pbBuffer.Length ==> pbBuffer[j] == old(pbBuffer[j])
    {
      if !backupPartition {
        return RbFailure;
      }
      var retry: int := 2;
      var done := false;
      while retry != 0 && !done
        invariant 0 <= retry <= 2
        invariant done <==> (retry <= 1 && TransferOk(|backup.data|, dwBlockAddress, dwSize, fault1))
                            || (retry == 0 && TransferOk(|backup.data|, dwBlockAddress, dwSize, fault2))
        invariant done ==> pbBuffer[..dwSize] == backup.data[dwBlockAddress..dwBlockAddress + dwSize]
        invariant forall j :: dwSize <= j < pbBuffer.Length ==> pbBuffer[j] == old(pbBuffer[j])
      {
        var fault := if retry == 2 then fault1 else fault2;
        retry := retry - 1;
        if TransferOk(|backup.data|, dwBlockAddress, dwSize, fault) {
          CopyBytes(pbBuffer, 0, backup.data[dwBlockAddress..dwBlockAddress + dwSize]);
          done := true;
        }
      }
      return if done then RbSuccess else RbFailure;
    }

    /**
     * RB_WriteBackupBlock: like the read, two unconditional attempts to
     * program one backup-sized block, and success whenever a backup
     * partition is present.
     */
    method WriteBackupBlock(backup: Medium, dwBlockStartAddress: nat, pbBuffer: seq<Byte>,
                            fault1: bool, fault2: bool)
      returns (status: RbStatus)
      requires backupPartition ==> |pbBuffer| >= backupInfo.eraseSize
      modifies backup
      ensures status == BackupOutcome(backupPartition, 2)
      ensures status == if backupPartition then RbSuccess else RbFailure
      ensures backup.data == if backupPartition
          && (TransferOk(|old(backup.data)|, dwBlockStartAddress, backupInfo.eraseSize, fault1)
              || TransferOk(|old(backup.data)|, dwBlockStartAddress, backupInfo.eraseSize, fault2))
        then Overwrite(old(backup.data), dwBlockStartAddress, pbBuffer[..backupInfo.eraseSize])
        else old(backup.data)
    {
      if !backupPartition {
        return RbFailure;
      }
      var block := pbBuffer[..backupInfo.eraseSize];
      var retry: int := 2;
      var attempts := 0;
      while retry != 0
        invariant 0 <= retry <= 2 && attempts == 2 - retry
        invariant |backup.data| == |old(backup.data)|
        invariant backup.data == if (attempts >= 1 && TransferOk(|backup.data|, dwBlockStartAddress, |block|, fault1))
                                    || (attempts == 2 && TransferOk(|backup.data|, dwBlockStartAddress, |block|, fault2))
                                 then Overwrite(old(backup.data), dwBlockStartAddress, block)
                                 else old(backup.data)
      {
        retry := retry - 1;
        var fault := if attempts == 0 then fault1 else fault2;
        if TransferOk(|backup.data|, dwBlockStartAddress, |block|, fault) {
          OverwriteIdempotent(old(backup.data), dwBlockStartAddress, block);
          backup.data := Overwrite(backup.data, dwBlockStartAddress, block);
        }
        attempts := attempts + 1;
      }
      retry := retry - 1;
      if retry == 0 {
        return RbFailure;
      }
      return RbSuccess;
    }

    /** RB_EraseBackupBlock: unused by this port; changes nothing and reports success. */
    method EraseBackupBlock(dwStartAddress: nat) returns (status: RbStatus)
      ensures status == RbSuccess
    {
      status := RbSuccess;
    }

    /**
     * RB_WriteBackupPartOfBlock: `dwSize` bytes into a backup block already
     * written whole; the same two unconditional attempts.
     */
    method WriteBackupPartOfBlock(backup: Medium, dwStartAddress: nat, dwSize: nat, pbBuffer: seq<Byte>,
                                  fault1: bool, fault2: bool)
      returns (status: RbStatus)
      requires dwSize <= |pbBuffer|
      modifies backup
      ensures status == BackupOutcome(backupPartition, 2)
      ensures status == if backupPartition then RbSuccess else RbFailure
      ensures backup.data == if backupPartition
          && (TransferOk(|old(backup.data)|, dwStartAddress, dwSize, fault1)
              || TransferOk(|old(backup.data)|, dwStartAddress, dwSize, fault2))
        then Overwrite(old(backup.data), dwStartAddress, pbBuffer[..dwSize])
        else old(backup.data)
    {
      if !backupPartition {
        return RbFailure;
      }
      var part := pbBuffer[..dwSize];
      var retry: int := 2;
      var attempts := 0;
      while retry != 0
        invariant 0 <= retry <= 2 && attempts == 2 - retry
        invariant |backup.data| == |old(backup.data)|
        invariant backup.data == if (attempts >= 1 && TransferOk(|backup.data|, dwStartAddress, dwSize, fault1))
                                    || (attempts == 2 && TransferOk(|backup.data|, dwStartAddress, dwSize, fault2))
                                 then Overwrite(old(backup.data), dwStartAddress, part)
                                 else old(backup.data)
      {
        retry := retry - 1;
        var fault := if attempts == 0 then fault1 else fault2;
        if TransferOk(|backup.data|, dwStartAddress, dwSize, fault) {
          OverwriteIdempotent(old(backup.data), dwStartAddress, part);
          backup.data := Overwrite(backup.data, dwStartAddress, part);
        }
        attempts := attempts + 1;
      }
      retry := retry - 1;
      if retry == 0 {
        return RbFailure;
      }
      return RbSuccess;
    }
  }
}
