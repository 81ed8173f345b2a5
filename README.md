# CrashLogger in Dafny

This project models `CrashLogger`, an Android library that installs itself as
the process's default uncaught-exception handler. When a thread crashes, the
handler writes a plain-text crash report. The report holds:

- the collection date;
- the user annotations set through the companion object (name, identifier, email);
- a block of device and package information;
- the internal-memory figures;
- the crashing throwable's stack trace and the traces of its causes.

The handler then hands the report to the host `Context` if the host implements
`IPostTask`.

The model has five modules:

- `Text` (`text.dfy`): the nullable `Option`, string concatenation of a list, and the decimal
  rendering of integers that Kotlin's string templates perform, with its parse-back.
- `Throwables` (`throwables.dfy`): the cause graph as a heap of throwable identities, the walk
  `cause = cause.cause` and when it ends.
- `DeviceReport` (`device_report.dfy`): `getTotalInternalMemory`, `getAvailableInternalMemory`
  and `formattedInfoString`.
- `Report` (`report.dfy`): the report as a list of tagged sections rendered to a string. Tags
  let facts such as "the cause header appears once" be stated. The date and the traces are
  opaque texts that may contain anything.
- `CrashLogging` (`crash_logger.dfy`): the companion object as a class with its mutable fields
  (`init` and the setters), and the `CrashLogger` class whose `UncaughtException` builds the
  report with the source's `+=` statements and its `while` loop over the causes. These are
  proved equal to the `Report` specification.

The model follows the code, including these behaviours:

- The cause loop keeps no set of visited throwables. On a cause cycle it does not terminate
  normally: on a JVM the ever-growing report exhausts memory (`Throwables.RevisitDiverges`,
  `Throwables.TwoCycleDiverges`). Without a cycle the loop ends (`Throwables.NoRevisitEnds`).
  `UncaughtException` therefore requires that the walk reaches null.
- `init` keeps no reference to the previously installed handler. It overwrites the handler and
  does not delegate to it.
- Before JELLY_BEAN_MR2 (SDK 18) the available memory is computed as block size times block
  size. The free block count plays no part in it (`DeviceReport.OldSdkAvailableExceedsTotal`).
- Each loop iteration appends the whole `StringWriter` buffer, which still holds the root trace
  and every earlier cause (`Report.CauseDumpsAccumulate`). No single trace is appended on its own.
- A null `DeviceInfo` prints the text `null` after every field label
  (`DeviceReport.NullDeviceInfoPrintsNull`).
- The "Phone Model" label has no separator. The total-memory label is `Total Internal memory :  + `.

## Model

| member | source | states |
|---|---|---|
| CrashLogging.Companion.constructor | app/src/main/java/com/crashlogger/CrashLogger.kt:20-27 | at class load the three annotation fields and the instance are null |
| CrashLogging.Companion.Init | app/src/main/java/com/crashlogger/CrashLogger.kt:35-41 | the first call creates the logger for its context and later calls return that same instance; every call installs it as the default handler without keeping the previous one; the annotations are unchanged |
| CrashLogging.InitTwice | app/src/main/java/com/crashlogger/CrashLogger.kt:35-41 | two calls, even with different contexts, return one and the same instance, created for the first context |
| CrashLogging.Companion.SetUserName | app/src/main/java/com/crashlogger/CrashLogger.kt:48-50 | the user name becomes the given string and the other annotations stay as they were |
| CrashLogging.Companion.SetUserIdentifier | app/src/main/java/com/crashlogger/CrashLogger.kt:57-59 | the user id becomes the given string and the other annotations stay as they were |
| CrashLogging.Companion.SetUserEmail | app/src/main/java/com/crashlogger/CrashLogger.kt:66-68 | the user email becomes the given string and the other annotations stay as they were |
| DeviceReport.TotalIsBlocksTimesSize | app/src/main/java/com/crashlogger/CrashLogger.kt:98-112 | on every SDK the total internal memory is the block count times the block size |
| DeviceReport.AvailableBySdk | app/src/main/java/com/crashlogger/CrashLogger.kt:77-91 | from JELLY_BEAN_MR2 on, the available memory is free blocks times block size; before it, it is block size squared and does not depend on the free block count |
| DeviceReport.AvailableWithinTotal | app/src/main/java/com/crashlogger/CrashLogger.kt:77-112 | from JELLY_BEAN_MR2 on, the available figure is between zero and the total |
| DeviceReport.OldSdkAvailableExceedsTotal | app/src/main/java/com/crashlogger/CrashLogger.kt:85-90 | before JELLY_BEAN_MR2, a partition with fewer blocks than bytes per block reports more available memory than its total |
| DeviceReport.NullDeviceInfoPrintsNull | app/src/main/java/com/crashlogger/CrashLogger.kt:143-167 | with a null `DeviceInfo`, every field line reads its label followed by `null`, while the two memory lines still show the computed total and available figures |
| DeviceReport.ManufacturerNotPrinted | app/src/main/java/com/crashlogger/CrashLogger.kt:143-167 | the device block does not depend on the manufacturer |
| DeviceReport.MemoryLinesReadBack | app/src/main/java/com/crashlogger/CrashLogger.kt:164-165 | the text after each memory label is a decimal integer that parses back to the computed total and available figures |
| Text.IntToStringRoundTrip | app/src/main/java/com/crashlogger/CrashLogger.kt:164-165 | the decimal text a `Long` template prints is well formed and parses back to the number |
| Throwables.Chain | app/src/main/java/com/crashlogger/CrashLogger.kt:219-223 | within a step bound, returns exactly the throwables the loop visits before reaching null, and returns a result exactly when null is reached within that bound |
| Throwables.CauseChain | app/src/main/java/com/crashlogger/CrashLogger.kt:211-223 | the throwables the loop visits, in order; the list is empty exactly when the first cause is null |
| Throwables.ChainPosition | app/src/main/java/com/crashlogger/CrashLogger.kt:219-222 | after i iterations, `cause` is non-null exactly when i is within the chain, and then it is the chain's i-th throwable |
| Throwables.WalkStep | app/src/main/java/com/crashlogger/CrashLogger.kt:222 | one step of the walk moves to the current throwable's cause |
| Throwables.RevisitDiverges | app/src/main/java/com/crashlogger/CrashLogger.kt:219-223 | a walk that meets a throwable twice never reaches null, so the loop does not terminate normally |
| Throwables.TwoCycleDiverges | app/src/main/java/com/crashlogger/CrashLogger.kt:219-223 | two throwables that are each other's cause keep the loop from ever reaching null |
| Throwables.WalkDistinct | app/src/main/java/com/crashlogger/CrashLogger.kt:219-223 | a walk that ends visits each throwable at most once |
| Throwables.WalkEndsIff | app/src/main/java/com/crashlogger/CrashLogger.kt:219-223 | if the loop stops after some number n of iterations, then the walk ends within as many iterations as there are throwables and the chain has at most n throwables |
| Throwables.NoRevisitEnds | app/src/main/java/com/crashlogger/CrashLogger.kt:219-223 | a walk that meets no throwable twice reaches null, so without a cause cycle the loop ends |
| Report.RenderFieldLine | app/src/main/java/com/crashlogger/CrashLogger.kt:181-192 | a null field appends nothing; a set field appends its label, its value and a newline |
| Report.RenderCauseHeaderLine | app/src/main/java/com/crashlogger/CrashLogger.kt:211-216 | without a cause nothing is appended; with one, the three lines of the cause header are appended |
| Report.RenderDumpSnoc | app/src/main/java/com/crashlogger/CrashLogger.kt:219-223 | one loop iteration appends the buffer grown by the next cause's trace |
| Report.ReportLayout | app/src/main/java/com/crashlogger/CrashLogger.kt:174-226 | the sections come in the source's order: date, information header, the user lines of `UserLines` (name, id, email, one per set field), separator, device block, stack header, root trace, the cause header when there is a cause, the dumps of `CauseDumps` in loop order, end marker |
| Report.ReportFramed | app/src/main/java/com/crashlogger/CrashLogger.kt:177-226 | every report starts with `Error Report collected on : ` and the date, and ends with `****  End of current Report ***` |
| Report.UserLinesExact | app/src/main/java/com/crashlogger/CrashLogger.kt:181-192 | the information block has a line for a field with value v exactly when that field is set to v; there is one line per set field, in the order name, id, email |
| Report.UserLineInReportIff | app/src/main/java/com/crashlogger/CrashLogger.kt:181-192 | a user line occurs anywhere in the section list exactly when its field is set to that value |
| Report.CauseHeaderOnce | app/src/main/java/com/crashlogger/CrashLogger.kt:211-216 | the cause header occurs once when there is a cause and never otherwise |
| Report.CauseDumpsAccumulate | app/src/main/java/com/crashlogger/CrashLogger.kt:204-223 | the k-th dump is the root trace followed by the traces of the first k causes, and each dump extends the one before by one trace |
| Report.OneDumpPerCause | app/src/main/java/com/crashlogger/CrashLogger.kt:211-223 | the dumps are exactly the one-per-cause sections before the end marker; the cause header occurs once exactly when the first cause is non-null; the visited causes follow the `cause` links and the last one has a null cause |
| Report.DumpsBeforeEnd | app/src/main/java/com/crashlogger/CrashLogger.kt:218-226 | a report's cause dumps are exactly the sections, one per cause trace, between the root trace or cause header and the end marker |
| CrashLogging.CrashLogger.WriteHead | app/src/main/java/com/crashlogger/CrashLogger.kt:174-202 | the `+=` statements up to the stack header produce the text of the date line, information block, separator, device block and stack header |
| CrashLogging.CrashLogger.AppendCauses | app/src/main/java/com/crashlogger/CrashLogger.kt:218-223 | the loop appends, for each cause on the chain, the whole buffer as it stands after printing that cause |
| CrashLogging.CrashLogger.ComposeReport | app/src/main/java/com/crashlogger/CrashLogger.kt:174-226 | the report built step by step equals the rendering of the crash's section list |
| CrashLogging.CrashLogger.UncaughtException | app/src/main/java/com/crashlogger/CrashLogger.kt:169-231 | the report is built from the annotation snapshot, the device block of the platform's figures and the throwables; it is posted with the exception to an `IPostTask` host, which fails with a null-pointer exception when the exception is null, and is discarded otherwise |

## Left out

- The Android platform is not called. `getDeviceInformation`, `Build.VERSION.SDK_INT` and the
  `StatFs` of the data directory arrive as a `Platform` value. A failed package lookup, which the
  source logs with `Log.e` and turns into null, is `None` there.
- `Date().toString()` and the text `printStackTrace` writes are opaque strings given as inputs.
  The thread argument is unused by the source and is left out.
- Concurrency is not modelled: `@Volatile`, `synchronized` in `init`, and another thread
  changing an annotation while a report is built. The handler reads each annotation once, as a
  snapshot.
- `Long` arithmetic is unbounded: 64-bit overflow in the memory products is not modelled. The
  `Int` getters of `StatFs` are separate inputs, so any truncation shows up as different values.
- The fields of a non-null `DeviceInfo` are never themselves null in this model.
- `IPostTask.postExceptionExecution` is recorded as a `Delivery` value. What the host does with
  it is outside the model.
- The indentation of the raw string in `formattedInfoString` is taken as eight spaces per line.
- `printWriter.close()` and `TAG` have no effect on the report and are not modelled.
- CrashLogging.CrashLogger.UncaughtException: requires that the cause walk reaches null, because
  on a cause cycle the source does not terminate normally: on a JVM the ever-growing report
  exhausts memory. That the walk then never reaches null is proved separately.
- Memory for strings is unbounded in the model, so the `OutOfMemoryError` a cause cycle ends in
  on a JVM appears only as a walk that never reaches null.
