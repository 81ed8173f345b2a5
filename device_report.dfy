/** The device block of a crash report: the internal-memory figures that
    `getTotalInternalMemory` and `getAvailableInternalMemory` compute from
    the platform's `StatFs`, and the text `formattedInfoString` renders from
    a (possibly null) `DeviceInfo`. */
module DeviceReport {
  import opened Text

  /** `Build.VERSION_CODES.JELLY_BEAN_MR2`, the first SDK with the `Long`
      getters of `StatFs`. */
  const JellyBeanMr2: int := 18

  /** What `StatFs` reports for the data directory: the `Long` getters and
      the older `Int` getters (which the platform may truncate). */
  datatype StatFs = StatFs(
    blockSizeLong: int,
    blockCountLong: int,
    availableBlocksLong: int,
    blockSize: int,
    blockCount: int)

  /** The `Int` getters report the same figures as the `Long` ones. */
  predicate Untruncated(stat: StatFs)
  {
    stat.blockSize == stat.blockSizeLong && stat.blockCount == stat.blockCountLong
  }

  /** Bytes available on the data partition, as the source computes them:
      before JELLY_BEAN_MR2 it multiplies the block size by itself. */
  function AvailableInternalMemory(sdkInt: int, stat: StatFs): int
  {
    var blockSize := if sdkInt >= JellyBeanMr2 then stat.blockSizeLong else stat.blockSize;
    var availableBlocks := if sdkInt >= JellyBeanMr2 then stat.availableBlocksLong else stat.blockSize;
    availableBlocks * blockSize
  }

  /** Bytes of the data partition. */
  function TotalInternalMemory(sdkInt: int, stat: StatFs): int
  {
    var blockSize := if sdkInt >= JellyBeanMr2 then stat.blockSizeLong else stat.blockSize;
    var totalBlocks := if sdkInt >= JellyBeanMr2 then stat.blockCountLong else stat.blockCount;
    totalBlocks * blockSize
  }

  /** On every SDK the total is the block count times the block size. */
  lemma TotalIsBlocksTimesSize(sdkInt: int, stat: StatFs)
    requires Untruncated(stat)
    ensures TotalInternalMemory(sdkInt, stat) == stat.blockCountLong * stat.blockSizeLong
  {
  }

  /** From JELLY_BEAN_MR2 on, the available figure is the free block count
      times the block size; before it, the free block count plays no part. */
  lemma AvailableBySdk(sdkInt: int, stat: StatFs, freeBlocks: int)
    requires Untruncated(stat)
    ensures sdkInt >= JellyBeanMr2 ==>
      AvailableInternalMemory(sdkInt, stat) == stat.availableBlocksLong * stat.blockSizeLong
    ensures sdkInt < JellyBeanMr2 ==>
      AvailableInternalMemory(sdkInt, stat) == stat.blockSizeLong * stat.blockSizeLong
      && AvailableInternalMemory(sdkInt, stat.(availableBlocksLong := freeBlocks))
         == AvailableInternalMemory(sdkInt, stat)
  {
  }

  /** From JELLY_BEAN_MR2 on, no more is reported available than in total. */
  lemma AvailableWithinTotal(sdkInt: int, stat: StatFs)
    requires sdkInt >= JellyBeanMr2
    requires 0 <= stat.availableBlocksLong <= stat.blockCountLong && 0 <= stat.blockSizeLong
    ensures 0 <= AvailableInternalMemory(sdkInt, stat) <= TotalInternalMemory(sdkInt, stat)
  {
    var free, total, size := stat.availableBlocksLong, stat.blockCountLong, stat.blockSizeLong;
    assert free * size <= total * size by {
      assert (total - free) * size >= 0;
      assert (total - free) * size == total * size - free * size;
    }
  }

  /** Before JELLY_BEAN_MR2, a partition with fewer blocks than bytes per
      block reports more available memory than it holds. */
  lemma OldSdkAvailableExceedsTotal(sdkInt: int, stat: StatFs)
    requires sdkInt < JellyBeanMr2 && Untruncated(stat)
    requires 0 <= stat.blockCountLong < stat.blockSizeLong
    ensures AvailableInternalMemory(sdkInt, stat) > TotalInternalMemory(sdkInt, stat)
  {
    var total, size := stat.blockCountLong, stat.blockSizeLong;
    assert size * size > total * size by {
      assert (size - total) * size > 0;
      assert (size - total) * size == size * size - total * size;
    }
  }

  /** What `getDeviceInformation` gathers from the package manager and
      `Build` (its `manufacturer` is gathered but never printed). */
  datatype DeviceInfo = DeviceInfo(
    versionName: string,
    packageName: string,
    filePath: string,
    phoneModel: string,
    androidVersion: string,
    board: string,
    brand: string,
    device: string,
    display: string,
    fingerPrint: string,
    host: string,
    id: string,
    manufacturer: string,
    model: string,
    product: string,
    tags: string,
    time: int,
    buildType: string,
    sdkInfo: int,
    user: string)

  /** The labels of the device block in print order. "Phone Model" has no
      separator, and the total-memory label ends in a literal " + ". */
  const DeviceLabels: seq<string> := [
    "Version : ", "Package : ", "FilePath : ", "Phone Model",
    "Android Version : ", "Board : ", "Brand : ", "Device : ", "Display : ",
    "Finger Print : ", "Host : ", "ID : ", "Model : ", "Product : ",
    "Tags : ", "Time : ", "Type : ", "User : ", "SDK_VERSION : ",
    "Total Internal memory :  + ", "Available Internal memory : "]

  /** The number of labelled lines that show a `DeviceInfo` field. */
  const FieldLineCount: nat := 19

  /** The leading indentation the raw string literal keeps on every line. */
  const Indent: string := "        "

  /** What each `${deviceInfo?.field}` template prints, in label order:
      the text "null" for every field of a null `DeviceInfo`. */
  function ShownFields(d: Option<DeviceInfo>): (vs: seq<string>)
    ensures |vs| == FieldLineCount
  {
    match d
    case None => seq(FieldLineCount, _ => "null")
    case Some(x) =>
      [x.versionName, x.packageName, x.filePath, x.phoneModel, x.androidVersion,
       x.board, x.brand, x.device, x.display, x.fingerPrint, x.host, x.id,
       x.model, x.product, x.tags, IntToString(x.time), x.buildType, x.user,
       IntToString(x.sdkInfo)]
  }

  /** The labelled lines of the device block, without indentation. */
  function DeviceLines(d: Option<DeviceInfo>, sdkInt: int, stat: StatFs): (lines: seq<string>)
    ensures |lines| == |DeviceLabels|
  {
    var values := ShownFields(d)
      + [IntToString(TotalInternalMemory(sdkInt, stat)),
         IntToString(AvailableInternalMemory(sdkInt, stat))];
    seq(|DeviceLabels|, k requires 0 <= k < |DeviceLabels| => DeviceLabels[k] + values[k])
  }

  /** The device block `formattedInfoString` returns: a newline, one
      indented line per label, and the indentation of the closing quotes. */
  function FormattedInfoString(d: Option<DeviceInfo>, sdkInt: int, stat: StatFs): (s: string)
  {
    var lines := DeviceLines(d, sdkInt, stat);
    "\n" + Concat(seq(|lines|, k requires 0 <= k < |lines| => Indent + lines[k] + "\n")) + Indent
  }

  /** A null `DeviceInfo` prints "null" after every field label, while the
      two memory lines still print the computed figures. */
  lemma NullDeviceInfoPrintsNull(sdkInt: int, stat: StatFs)
    ensures forall k :: 0 <= k < FieldLineCount ==>
      DeviceLines(None, sdkInt, stat)[k] == DeviceLabels[k] + "null"
    ensures DeviceLines(None, sdkInt, stat)[FieldLineCount]
      == DeviceLabels[FieldLineCount] + IntToString(TotalInternalMemory(sdkInt, stat))
    ensures DeviceLines(None, sdkInt, stat)[FieldLineCount + 1]
      == DeviceLabels[FieldLineCount + 1] + IntToString(AvailableInternalMemory(sdkInt, stat))
  {
  }

  /** The manufacturer is gathered but never printed. */
  lemma ManufacturerNotPrinted(x: DeviceInfo, m: string, sdkInt: int, stat: StatFs)
    ensures FormattedInfoString(Some(x.(manufacturer := m)), sdkInt, stat)
         == FormattedInfoString(Some(x), sdkInt, stat)
  {
    assert ShownFields(Some(x.(manufacturer := m))) == ShownFields(Some(x));
  }

  /** The two memory lines read back as exactly the computed figures. */
  lemma MemoryLinesReadBack(d: Option<DeviceInfo>, sdkInt: int, stat: StatFs)
    ensures var lines, n := DeviceLines(d, sdkInt, stat), FieldLineCount;
      && |DeviceLabels[n]| <= |lines[n]| && |DeviceLabels[n + 1]| <= |lines[n + 1]|
      && IsIntText(lines[n][|DeviceLabels[n]|..])
      && IsIntText(lines[n + 1][|DeviceLabels[n + 1]|..])
      && ParseInt(lines[n][|DeviceLabels[n]|..]) == TotalInternalMemory(sdkInt, stat)
      && ParseInt(lines[n + 1][|DeviceLabels[n + 1]|..]) == AvailableInternalMemory(sdkInt, stat)
  {
    var lines, n := DeviceLines(d, sdkInt, stat), FieldLineCount;
    var total := IntToString(TotalInternalMemory(sdkInt, stat));
    var available := IntToString(AvailableInternalMemory(sdkInt, stat));
    assert lines[n][|DeviceLabels[n]|..] == total;
    assert lines[n + 1][|DeviceLabels[n + 1]|..] == available;
    IntToStringRoundTrip(TotalInternalMemory(sdkInt, stat));
    IntToStringRoundTrip(AvailableInternalMemory(sdkInt, stat));
  }
}
