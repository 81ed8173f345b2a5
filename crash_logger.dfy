/** The `CrashLogger` class and its companion object: the singleton `init`,
    the three annotation setters, and `uncaughtException`, which composes
    the crash report and hands it to the host when the host implements
    `IPostTask`. The Android calls it makes are inputs here: the device
    information, the SDK level and `StatFs` figures arrive as a `Platform`
    record, the date as its text, and the throwables as a `Heap`. */
module CrashLogging {
  import opened Text
  import opened Throwables
  import opened DeviceReport
  import opened Report

  /** The part of the host `Context` the handler looks at: whether it
      implements `IPostTask`. */
  datatype HostContext = HostContext(isPostTask: bool)

  /** What the platform reports when the crash is handled: the result of
      `getDeviceInformation` (null when the package lookup fails), the SDK
      level and the `StatFs` of the data directory. */
  datatype Platform = Platform(deviceInfo: Option<DeviceInfo>, sdkInt: int, stat: StatFs)

  /** How `uncaughtException` ends: without a post when the host is not an
      `IPostTask`, with `postExceptionExecution(report, exception)` when it
      is, and with the `NullPointerException` of `exception!!` when it is
      and the exception is null. */
  datatype Delivery = Skipped | Posted(report: string, exception: ThrowId) | NullExceptionThrown

  /** The process-wide state of the companion object. `defaultHandler`
      stands for the JVM's default uncaught-exception handler slot. */
  class Companion {
    var userName: Option<string>
    var userId: Option<string>
    var userEmail: Option<string>
    var instance: CrashLogger?
    var defaultHandler: object?

    /** The state at class-load time: no annotation, no instance, and
        whatever handler the platform had installed. */
    constructor (platformHandler: object?)
      ensures userName == None && userId == None && userEmail == None
      ensures instance == null && defaultHandler == platformHandler
    {
      userName, userId, userEmail := None, None, None;
      instance := null;
      defaultHandler := platformHandler;
    }

    /** The annotation fields as the report reads them. */
    function Snapshot(): Annotations
      reads this
    {
      Annotations(userName, userId, userEmail)
    }

    /** `init`: creates the logger on the first call only, and on every
        call registers it as the default handler, overwriting (and not
        keeping) whatever handler was registered before. */
    method Init(context: HostContext) returns (r: CrashLogger?)
      modifies this`instance, this`defaultHandler
      ensures old(instance) == null ==> r != null && fresh(r) && r.context == context
      ensures old(instance) != null ==> r == old(instance)
      ensures instance == r && defaultHandler == r
      ensures Snapshot() == old(Snapshot())
    {
      if instance == null {
        instance := new CrashLogger(context);
      }
      defaultHandler := instance;
      r := instance;
    }

    method SetUserName(userName: string)
      modifies this`userName
      ensures Snapshot() == old(Snapshot()).(userName := Some(userName))
    {
      this.userName := Some(userName);
    }

    method SetUserIdentifier(userId: string)
      modifies this`userId
      ensures Snapshot() == old(Snapshot()).(userId := Some(userId))
    {
      this.userId := Some(userId);
    }

    method SetUserEmail(userEmail: string)
      modifies this`userEmail
      ensures Snapshot() == old(Snapshot()).(userEmail := Some(userEmail))
    {
      this.userEmail := Some(userEmail);
    }
  }

  /** Calling `init` again, even with another context, returns the first
      instance and leaves it registered. */
  method InitTwice(companion: Companion, first: HostContext, second: HostContext)
    returns (r1: CrashLogger?, r2: CrashLogger?)
    modifies companion
    ensures r1 != null && r1 == r2 && companion.instance == r1 && companion.defaultHandler == r1
    ensures old(companion.instance) == null ==> r1.context == first
    ensures companion.Snapshot() == old(companion.Snapshot())
  {
    r1 := companion.Init(first);
    r2 := companion.Init(second);
  }

  class CrashLogger {
    const context: HostContext

    constructor (context: HostContext)
      ensures this.context == context
    {
      this.context := context;
    }

    /** The first part of `uncaughtException`: the date line, the
        information block with one line per non-null annotation field, the
        separator, the device information and the stack header. */
    method WriteHead(a: Annotations, date: string, formattedString: string)
      returns (report: string)
      ensures report == RenderAll(InfoSections(date, a, formattedString))
    {
      // The sections written so far; `report` is always their text.
      ghost var secs: seq<Section> := [];

      report := "";
      RenderSnoc(secs, DateLine(date));
      report := report + ("Error Report collected on : " + date);
      report := report + "\n";
      secs := [DateLine(date)];
      assert report == RenderAll(secs);

      RenderSnoc(secs, InfoHeader);
      report := report + "Information's :";
      report := report + "\n";
      secs := secs + [InfoHeader];
      assert report == RenderAll(secs);

      RenderFieldLine(secs, a, UserName);
      if a.userName.Some? {
        report := report + ("Username : " + a.userName.value);
        report := report + "\n";
      }
      secs := secs + FieldLine(a, UserName);
      assert report == RenderAll(secs);
      RenderFieldLine(secs, a, UserId);
      if a.userId.Some? {
        report := report + ("UserId : " + a.userId.value);
        report := report + "\n";
      }
      secs := secs + FieldLine(a, UserId);
      assert report == RenderAll(secs);
      RenderFieldLine(secs, a, UserEmail);
      if a.userEmail.Some? {
        report := report + ("UserEmail : " + a.userEmail.value);
        report := report + "\n";
      }
      secs := secs + FieldLine(a, UserEmail);
      assert report == RenderAll(secs);

      RenderSnoc(secs, Separator);
      report := report + "\n";
      report := report + "==============";
      report := report + "\n";
      report := report + "\n";
      secs := secs + [Separator];
      assert report == RenderAll(secs);

      RenderSnoc(secs, DeviceBlock(formattedString));
      report := report + formattedString;
      secs := secs + [DeviceBlock(formattedString)];
      assert report == RenderAll(secs);

      RenderSnoc(secs, StackHeader);
      report := report + "\n\n";
      report := report + "Stack : \n";
      report := report + "======= \n";
      secs := secs + [StackHeader];
      assert report == RenderAll(secs);
    }

    /** The loop of `uncaughtException` that walks the causes: each
        iteration prints the cause's trace to the `StringWriter` (which
        already holds `stacktrace`) and appends the writer's whole buffer
        to the report. */
    method AppendCauses(h: Heap, first: Option<ThrowId>, stacktrace: string,
                        report0: string, ghost head: seq<Section>)
      returns (report: string)
      requires Closed(h) && InHeap(h, first) && CauseWalkEnds(h, first)
      requires report0 == RenderAll(head)
      ensures report == RenderAll(head + CauseDumps(stacktrace, TracesOf(h, CauseChain(h, first))))
    {
      ghost var chain := CauseChain(h, first);
      ghost var traces := TracesOf(h, chain);
      var cause := first;
      var buffer := stacktrace;
      report := report0;
      assert head + CauseDumps(stacktrace, traces[..0]) == head;
      assert buffer == stacktrace + Concat(traces[..0]) by {
        assert traces[..0] == [];
      }
      ghost var i := 0;
      while cause.Some?
        invariant 0 <= i <= |chain|
        invariant InHeap(h, cause) && cause == Walk(h, first, i)
        invariant buffer == stacktrace + Concat(traces[..i])
        invariant report == RenderAll(head + CauseDumps(stacktrace, traces[..i]))
        decreases |chain| - i
      {
        ChainPosition(h, first, i);
        var t := cause.value;
        BufferSnoc(stacktrace, traces, i);
        RenderDumpSnoc(head, stacktrace, traces, i);
        buffer := buffer + h[t].trace;
        report := report + buffer;
        cause := h[t].cause;
        WalkStep(h, first, i);
        i := i + 1;
      }
      ChainPosition(h, first, i);
      assert traces[..i] == traces;
    }

    /** The report `uncaughtException` composes from the annotation
        fields, the date text, the device block and the throwables: the
        head, the root stack trace, the cause header when there is a cause,
        one buffer dump per cause and the end marker. */
    method ComposeReport(a: Annotations, date: string, formattedString: string,
                         h: Heap, exception: Option<ThrowId>)
      returns (report: string)
      requires Closed(h) && InHeap(h, exception)
      requires CauseWalkEnds(h, FirstCause(h, exception))
      ensures report == CrashReport(date, a, formattedString, h, exception)
    {
      report := WriteHead(a, date, formattedString);
      ghost var secs := InfoSections(date, a, formattedString);

      // The `StringWriter` behind the `PrintWriter`: every trace printed
      // goes to the end of `buffer`.
      var buffer := "";
      if exception.Some? {
        buffer := buffer + h[exception.value].trace;
      }
      var stacktrace := buffer;
      assert stacktrace == RootTraceOf(h, exception);
      RenderRootTrace(secs, stacktrace);
      report := report + stacktrace;
      secs := secs + [RootTrace(stacktrace)];
      assert report == RenderAll(secs);

      var cause := if exception.Some? then h[exception.value].cause else None;
      assert cause == FirstCause(h, exception);
      ghost var traces := TracesOf(h, CauseChain(h, cause));
      assert cause.Some? <==> |traces| > 0;
      RenderCauseHeaderLine(secs, cause.Some?);
      if cause.Some? {
        report := report + "\n";
        report := report + "Cause : \n";
        report := report + "======= \n";
      }
      secs := secs + CauseHeaderLine(cause.Some?);
      assert report == RenderAll(secs);
      assert secs == HeadSections(date, a, formattedString, RootTraceOf(h, exception), |traces| > 0);

      report := AppendCauses(h, cause, stacktrace, report, secs);
      assert report == RenderAll(secs + CauseDumps(stacktrace, traces));

      RenderEndMarker(secs + CauseDumps(stacktrace, traces));
      report := report + "****  End of current Report ***";
      assert report == RenderAll(secs + CauseDumps(stacktrace, traces) + [EndMarker]);
      assert secs + CauseDumps(stacktrace, traces) + [EndMarker]
          == CrashSections(date, a, formattedString, h, exception);
    }

    /** `uncaughtException`: composes the report and posts it to an
        `IPostTask` host; the report is discarded otherwise. When the cause
        walk never reaches null the source does not terminate normally (on a
        JVM the ever-growing report exhausts memory), so the walk must end (`Throwables.RevisitDiverges` shows that any revisited
        throwable prevents this). */
    method UncaughtException(companion: Companion, platform: Platform, date: string,
                             h: Heap, exception: Option<ThrowId>)
      returns (report: string, delivery: Delivery)
      requires Closed(h) && InHeap(h, exception)
      requires CauseWalkEnds(h, FirstCause(h, exception))
      ensures report == CrashReport(date, companion.Snapshot(),
                                    FormattedInfoString(platform.deviceInfo, platform.sdkInt, platform.stat),
                                    h, exception)
      ensures delivery == if !context.isPostTask then Skipped
                          else if exception.None? then NullExceptionThrown
                          else Posted(report, exception.value)
    {
      var formattedString := FormattedInfoString(platform.deviceInfo, platform.sdkInt, platform.stat);
      report := ComposeReport(companion.Snapshot(), date, formattedString, h, exception);

      if context.isPostTask {
        if exception.Some? {
          delivery := Posted(report, exception.value);
        } else {
          delivery := NullExceptionThrown;
        }
      } else {
        delivery := Skipped;
      }
    }
  }
}
