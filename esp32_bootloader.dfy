/**
 * The ESP32 hardware layer of the OpenLCB bootloader: flash page rounding,
 * the flash boundaries, the validation of the first block of a firmware
 * image before the over-the-air (OTA) update starts, the finalisation of
 * the update, the checksum stub, and the mapping of the running chip model
 * to the chip id an image must carry.
 *
 * The OTA layer, the chip query and the restart are calls into ESP-IDF:
 * their results are parameters, and their effects are recorded in fields
 * of the bootloader state (the writes handed to the OTA layer, the next
 * boot partition, whether the node restarted).
 */
module Esp32Bootloader {
  import opened Wrappers

  // ---------------------------------------------------------------------
  // Flash pages
  // ---------------------------------------------------------------------

  /** A configured sector size: a power of two. */
  predicate IsPowerOfTwo(s: bv32)
  {
    s != 0 && s & (s - 1) == 0
  }

  /** The page information: the page's first address and its length. */
  datatype PageInfo = PageInfo(pageStart: bv32, pageLength: bv32)

  /**
   * `get_flash_page_info`: the address with the bits below the sector size
   * cleared, and the sector size. The page contains the address (the
   * distance from the page start to the address is below the page length,
   * so the page start plus the length lies past it) and starts on a
   * multiple of the sector size.
   */
  function FlashPageInfo(address: bv32, sector: bv32): (r: PageInfo)
    requires IsPowerOfTwo(sector)
    ensures r.pageLength == sector
    ensures r.pageStart <= address && address - r.pageStart < r.pageLength
    ensures r.pageStart & (sector - 1) == 0
  {
    PageInfo(address & !(sector - 1), sector)
  }

  /** A page start rounds to itself. */
  lemma PageStartIdempotent(address: bv32, sector: bv32)
    requires IsPowerOfTwo(sector)
    ensures FlashPageInfo(FlashPageInfo(address, sector).pageStart, sector) == FlashPageInfo(address, sector)
  {
  }

  /** The page start is the greatest multiple of the sector size at or below the address. */
  lemma PageStartGreatest(address: bv32, sector: bv32, p: bv32)
    requires IsPowerOfTwo(sector)
    requires p & (sector - 1) == 0 && p <= address
    ensures p <= FlashPageInfo(address, sector).pageStart
  {
  }

  // ---------------------------------------------------------------------
  // Checksums
  // ---------------------------------------------------------------------

  /** Words in one checksum. */
  const CHECKSUM_COUNT: nat := 4

  /**
   * `checksum_data`: the ESP32 does not checksum the image; all 16 bytes
   * of the checksum, its CHECKSUM_COUNT words, are zero whatever the data.
   */
  function ChecksumData(data: seq<bv8>, size: nat): (r: seq<bv32>)
    ensures |r| == CHECKSUM_COUNT
    ensures forall i :: 0 <= i < |r| ==> r[i] == 0
  {
    seq(16 / 4, i => 0)
  }

  // ---------------------------------------------------------------------
  // Chips
  // ---------------------------------------------------------------------

  /** The chip ids an image header names its target chip by. */
  const ESP_CHIP_ID_ESP32: nat := 0x00
  const ESP_CHIP_ID_ESP32S2: nat := 0x02
  const ESP_CHIP_ID_ESP32C3: nat := 0x05
  const ESP_CHIP_ID_ESP32S3: nat := 0x09
  const ESP_CHIP_ID_ESP32H2: nat := 0x0A
  const ESP_CHIP_ID_INVALID: nat := 0xFFFF

  /** The names of the chip ids, indexed by id; ids without a chip are named INVALID. */
  const ESP_CHIP_ID_NAMES: seq<string> :=
    ["ESP32", "INVALID", "ESP32-S2", "INVALID", "INVALID", "ESP32-C3",
     "INVALID", "INVALID", "INVALID", "ESP32-S3", "ESP32-H2"]

  /** The chip model ESP-IDF reports for the running chip. */
  datatype ChipModel = ChipEsp32 | ChipEsp32S2 | ChipEsp32S3 | ChipEsp32C3 | ChipEsp32H2 | OtherModel(code: int)

  /**
   * The chip-model switch of `esp32_bootloader_run`: the chip id of a known
   * model, and INVALID for any other. The ESP32-H2 case exists only from
   * ESP-IDF 4.4 on (`h2Known`); before that the H2 takes the default.
   */
  function ChipIdOf(model: ChipModel, h2Known: bool): (r: nat)
    ensures r == ESP_CHIP_ID_INVALID <==> model.OtherModel? || (model.ChipEsp32H2? && !h2Known)
  {
    match model
    case ChipEsp32 => ESP_CHIP_ID_ESP32
    case ChipEsp32S2 => ESP_CHIP_ID_ESP32S2
    case ChipEsp32S3 => ESP_CHIP_ID_ESP32S3
    case ChipEsp32C3 => ESP_CHIP_ID_ESP32C3
    case ChipEsp32H2 => if h2Known then ESP_CHIP_ID_ESP32H2 else ESP_CHIP_ID_INVALID
    case OtherModel(_) => ESP_CHIP_ID_INVALID
  }

  /** The marketing name of a chip model. */
  function ModelName(model: ChipModel): string
  {
    match model
    case ChipEsp32 => "ESP32"
    case ChipEsp32S2 => "ESP32-S2"
    case ChipEsp32S3 => "ESP32-S3"
    case ChipEsp32C3 => "ESP32-C3"
    case ChipEsp32H2 => "ESP32-H2"
    case OtherModel(_) => "INVALID"
  }

  /** The id a known chip model maps to names that model in the chip-name table. */
  lemma ChipIdNamesModel(model: ChipModel, h2Known: bool)
    requires ChipIdOf(model, h2Known) != ESP_CHIP_ID_INVALID
    ensures ChipIdOf(model, h2Known) < |ESP_CHIP_ID_NAMES|
    ensures ESP_CHIP_ID_NAMES[ChipIdOf(model, h2Known)] == ModelName(model)
  {
  }

  /**
   * The name of a chip id for the log of a rejected image: the table's
   * entry for an id the table covers, and INVALID for the ids past it
   * (ESP_CHIP_ID_INVALID among them).
   */
  function ChipName(id: nat): (r: string)
    ensures id < |ESP_CHIP_ID_NAMES| ==> r == ESP_CHIP_ID_NAMES[id]
    ensures id >= |ESP_CHIP_ID_NAMES| ==> r == "INVALID"
  {
    if id < |ESP_CHIP_ID_NAMES| then ESP_CHIP_ID_NAMES[id] else "INVALID"
  }

  // ---------------------------------------------------------------------
  // The first block of an image
  // ---------------------------------------------------------------------

  /** The first byte of an image header. */
  const ESP_IMAGE_HEADER_MAGIC: nat := 0xE9
  /** The first word of the application description. */
  const ESP_APP_DESC_MAGIC_WORD: nat := 0xABCD5432

  /**
   * The fields `write_flash` reads from the first block: the image header's
   * magic byte and target chip id, and the magic word of the application
   * description that follows the header.
   */
  datatype ImageHeader = ImageHeader(magic: nat, chipId: nat, appDescMagic: nat)

  /** The outcome of `esp_ota_begin`: a handle, or an error. */
  datatype OtaBegin = Begun(handle: nat) | BeginFailed(err: int)

  /** Why `write_flash` restarts the node instead of writing. */
  datatype AbortReason =
    | BadImageMagic(magic: nat)
    | WrongImage(imageChip: string, runningChip: string)
    | OtaBeginError(err: int)
    | NoOtaHandle

  /** What `write_flash` does with a block. */
  datatype WriteOutcome = Written | Restart(reason: AbortReason)

  /** Whether a first block names the running chip and carries both magic numbers. */
  predicate FirstBlockValid(h: ImageHeader, running: nat)
  {
    h.magic == ESP_IMAGE_HEADER_MAGIC && h.chipId != ESP_CHIP_ID_INVALID
    && h.chipId == running && h.appDescMagic == ESP_APP_DESC_MAGIC_WORD
  }

  /**
   * The decision of `write_flash` for a block at `address`: the first
   * block (address 0) is validated, and the OTA update begun, before it is
   * written; any other block is written as it is. The OTA layer is begun
   * only for a valid first block; `begin` is what it then returns.
   */
  function WriteDecision(address: bv32, h: ImageHeader, running: nat, begin: OtaBegin): (r: WriteOutcome)
    ensures address != 0 ==> r == Written
  {
    if address != 0 then Written
    else if h.magic != ESP_IMAGE_HEADER_MAGIC then Restart(BadImageMagic(h.magic))
    else if !(h.chipId != ESP_CHIP_ID_INVALID && h.chipId == running && h.appDescMagic == ESP_APP_DESC_MAGIC_WORD) then
      Restart(WrongImage(ChipName(h.chipId), ChipName(running)))
    else if begin.BeginFailed? then Restart(OtaBeginError(begin.err))
    else if begin.handle == 0 then Restart(NoOtaHandle)
    else Written
  }

  /**
   * The first block is written if and only if its image magic is right, it
   * names the running chip, which is a valid chip id, its application
   * description magic is right, and the OTA update begins with a non-zero
   * handle; in each other case the node restarts.
   */
  lemma FirstBlockWrittenIff(h: ImageHeader, running: nat, begin: OtaBegin)
    ensures WriteDecision(0, h, running, begin) == Written
        <==> FirstBlockValid(h, running) && begin.Begun? && begin.handle != 0
    ensures WriteDecision(0, h, running, begin).Restart? && h.magic != ESP_IMAGE_HEADER_MAGIC
        ==> WriteDecision(0, h, running, begin).reason == BadImageMagic(h.magic)
  {
  }

  /** On a chip of an unknown model no first block validates, and none is written. */
  lemma UnknownChipRejectsAll(model: ChipModel, h2Known: bool, h: ImageHeader, begin: OtaBegin)
    requires ChipIdOf(model, h2Known) == ESP_CHIP_ID_INVALID
    ensures !FirstBlockValid(h, ChipIdOf(model, h2Known))
    ensures WriteDecision(0, h, ChipIdOf(model, h2Known), begin).Restart?
  {
  }

  /** An image for a known chip is accepted by that chip only. */
  lemma ImageForKnownChip(image: ChipModel, running: ChipModel, h2Known: bool)
    requires ChipIdOf(image, h2Known) != ESP_CHIP_ID_INVALID
    ensures var h := ImageHeader(ESP_IMAGE_HEADER_MAGIC, ChipIdOf(image, h2Known), ESP_APP_DESC_MAGIC_WORD);
      FirstBlockValid(h, ChipIdOf(running, h2Known)) <==> image == running
  {
  }

  /**
   * The lookups the rejection log of `write_flash` makes as written index
   * the name table directly with the image's chip id and the running chip
   * id; they stay in the table only for ids below its length.
   */
  predicate AsWrittenRejectionLookupsInTable(h: ImageHeader, running: nat)
  {
    h.chipId < |ESP_CHIP_ID_NAMES| && running < |ESP_CHIP_ID_NAMES|
  }

  /**
   * An image whose header names ESP_CHIP_ID_INVALID takes the rejection
   * path on an ESP32, and the lookup of its chip id reads past the end of
   * the 11-entry name table; so does the lookup of the running chip's id
   * on a chip of unknown model.
   */
  lemma AsWrittenRejectionReadsPastTable()
    ensures var h := ImageHeader(ESP_IMAGE_HEADER_MAGIC, ESP_CHIP_ID_INVALID, ESP_APP_DESC_MAGIC_WORD);
      && WriteDecision(0, h, ESP_CHIP_ID_ESP32, BeginFailed(0)) == Restart(WrongImage("INVALID", "ESP32"))
      && !AsWrittenRejectionLookupsInTable(h, ESP_CHIP_ID_ESP32)
    ensures var h := ImageHeader(ESP_IMAGE_HEADER_MAGIC, ESP_CHIP_ID_ESP32, ESP_APP_DESC_MAGIC_WORD);
      && WriteDecision(0, h, ChipIdOf(OtherModel(0x100), true), BeginFailed(0)).Restart?
      && !AsWrittenRejectionLookupsInTable(h, ChipIdOf(OtherModel(0x100), true))
  {
  }

  /** The rejection of an image for another chip names both chips by the table, and falls back to INVALID past it. */
  lemma RejectionNames(h: ImageHeader, running: nat, begin: OtaBegin)
    requires h.magic == ESP_IMAGE_HEADER_MAGIC && !FirstBlockValid(h, running)
    ensures WriteDecision(0, h, running, begin) == Restart(WrongImage(ChipName(h.chipId), ChipName(running)))
    ensures h.chipId == ESP_CHIP_ID_INVALID ==> WriteDecision(0, h, running, begin).reason.imageChip == "INVALID"
  {
  }

  // ---------------------------------------------------------------------
  // Finalising the update
  // ---------------------------------------------------------------------

  /** An ESP-IDF error code: success, the OTA image failing validation, or another error. */
  datatype EspErr = EspOk | OtaValidateFailed | OtherError(code: int)

  /**
   * The value `flash_complete` returns: `esp_ota_set_boot_partition` is
   * called only after `esp_ota_end` succeeds, and the result is 0 when the
   * last call made succeeded and 1 otherwise.
   */
  function FlashCompleteResult(endResult: EspErr, setBootResult: EspErr): (r: nat)
    ensures r == 0 || r == 1
    ensures r == 0 <==> endResult == EspOk && setBootResult == EspOk
    ensures endResult != EspOk ==> r == 1
  {
    var res := if endResult == EspOk then setBootResult else endResult;
    if res != EspOk then 1 else 0
  }

  // ---------------------------------------------------------------------
  // The bootloader state
  // ---------------------------------------------------------------------

  /** A flash partition: its identity and its size in bytes. */
  datatype Partition = Partition(id: nat, size: nat)

  /** What `write_flash` hands to the OTA layer: the handle and the block. */
  datatype OtaWrite = OtaWrite(handle: nat, data: seq<bv8>)

  /** The RTC flag that requests the bootloader on the next start, cleared. */
  const RTC_BOOL_FALSE: nat := 0

  /**
   * The fields of `esp_bootloader_state`: the chip id images must carry,
   * the size in the application header, the node id, the running and the
   * target partition, the OTA handle, whether TWAI was started, and the
   * transceiver pins.
   */
  datatype Esp32BootloaderState = Esp32BootloaderState(
    chipId: nat, appSize: nat, nodeId: nat, current: Option<Partition>, target: Option<Partition>,
    otaHandle: nat, twaiInitialized: bool, txPin: int, rxPin: int)

  /** The state with every byte zero. */
  const ZERO_STATE := Esp32BootloaderState(0, 0, 0, None, None, 0, false, 0, 0)

  /** The bootloader's globals, with the effects of the ESP-IDF calls it makes. */
  class Esp32BootloaderHal {
    /** `esp_bootloader_state`. */
    var state: Esp32BootloaderState
    /** The RTC flag that requests the bootloader on the next start. */
    var bootloaderRequest: nat
    /** The blocks handed to the OTA layer, in order. */
    var otaWrites: seq<OtaWrite>
    /** The boot partition the OTA layer was told to start next. */
    var nextBoot: Option<Partition>
    /** Whether the node restarted; nothing runs after that. */
    var restarted: bool

    /**
     * The globals at start-up: the bootloader state zero-initialised, nothing
     * written, no restart. The request flag lives in RTC memory that start-up
     * does not initialise, so it holds whatever `retainedRequest` it kept.
     */
    constructor (retainedRequest: nat)
      ensures state == ZERO_STATE && bootloaderRequest == retainedRequest
      ensures otaWrites == [] && nextBoot == None && !restarted
    {
      state := ZERO_STATE;
      bootloaderRequest := retainedRequest;
      otaWrites := [];
      nextBoot := None;
      restarted := false;
    }

    /**
     * `get_flash_boundaries`: the image is flashed from address 0 up to the
     * size in the application header.
     */
    function FlashBoundaries(): (r: (nat, nat))
      reads this
      ensures r.0 == 0 && r.1 == state.appSize
    {
      (0, state.appSize)
    }

    /**
     * The preparation in `esp32_bootloader_run`: clear the bootloader
     * request, zero the state, record the node id and the pins, map the
     * running chip model to its chip id, size the application by the
     * running partition and take the next OTA partition as the target. The
     * bootloader is entered (`entry`) only when there is a target and it is
     * not the running partition.
     */
    method Prepare(id: nat, rx: int, tx: int, model: ChipModel, h2Known: bool,
                   running: Partition, next: Option<Partition>) returns (entry: bool)
      requires !restarted
      modifies this`state, this`bootloaderRequest
      ensures bootloaderRequest == RTC_BOOL_FALSE
      ensures state == Esp32BootloaderState(ChipIdOf(model, h2Known), running.size, id, Some(running), next, 0, false, tx, rx)
      ensures FlashBoundaries() == (0, running.size)
      ensures entry <==> next.Some? && next.value != running
    {
      bootloaderRequest := RTC_BOOL_FALSE;
      state := ZERO_STATE;
      state := state.(nodeId := id, txPin := tx, rxPin := rx);
      state := state.(chipId := ChipIdOf(model, h2Known));
      state := state.(current := Some(running), appSize := running.size);
      state := state.(target := next);
      entry := state.target.Some? && state.target.value != running;
    }

    /**
     * `write_flash`: the first block is validated and, when valid, begins
     * the OTA update (`begin` is the result of `esp_ota_begin`, consulted
     * only then); a block that fails validation restarts the node. Every
     * other block, and a first block that passes, is handed to the OTA
     * layer under the current handle.
     */
    method WriteFlash(address: bv32, h: ImageHeader, data: seq<bv8>, begin: OtaBegin) returns (outcome: WriteOutcome)
      requires !restarted
      modifies this`state, this`otaWrites, this`restarted
      ensures outcome == WriteDecision(address, h, old(state.chipId), begin)
      ensures state == if address == 0 && FirstBlockValid(h, old(state.chipId)) && begin.Begun?
                       then old(state).(otaHandle := begin.handle) else old(state)
      ensures restarted <==> outcome.Restart?
      ensures otaWrites == if outcome == Written then old(otaWrites) + [OtaWrite(state.otaHandle, data)] else old(otaWrites)
    {
      if address == 0 {
        var shouldAbort := false;
        if h.magic == ESP_IMAGE_HEADER_MAGIC {
          if h.chipId != ESP_CHIP_ID_INVALID && h.chipId == state.chipId && h.appDescMagic == ESP_APP_DESC_MAGIC_WORD {
            match begin
            case Begun(handle) =>
              state := state.(otaHandle := handle);
            case BeginFailed(_) =>
              shouldAbort := true;
          } else {
            shouldAbort := true;
          }
        } else {
          shouldAbort := true;
        }
        if shouldAbort || state.otaHandle == 0 {
          restarted := true;
          outcome := WriteDecision(address, h, state.chipId, begin);
          return;
        }
      }
      otaWrites := otaWrites + [OtaWrite(state.otaHandle, data)];
      outcome := Written;
    }

    /**
     * `flash_complete`: end the OTA update and, when that succeeds, make
     * the target the next boot partition; 0 when both succeed, else 1.
     */
    method FlashComplete(endResult: EspErr, setBootResult: EspErr) returns (r: nat)
      requires !restarted
      modifies this`nextBoot
      ensures r == FlashCompleteResult(endResult, setBootResult)
      ensures nextBoot == if r == 0 then state.target else old(nextBoot)
    {
      var res := endResult;
      if res == EspOk {
        res := setBootResult;
        if res == EspOk {
          nextBoot := state.target;
        }
      }
      r := if res != EspOk then 1 else 0;
    }
  }
}
