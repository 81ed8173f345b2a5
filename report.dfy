/** The text `uncaughtException` composes, described as a list of tagged
    sections that render to the report string. The tags let properties
    such as "the cause header appears once" be stated even though the date,
    the user fields and the stack traces are opaque texts that may contain
    anything. */
module Report {
  import opened Text
  import opened Throwables

  /** The three annotation fields of the companion object; `None` is null. */
  datatype Annotations = Annotations(
    userName: Option<string>,
    userId: Option<string>,
    userEmail: Option<string>)

  datatype Field = UserName | UserId | UserEmail

  function FieldValue(a: Annotations, f: Field): Option<string>
  {
    match f
    case UserName => a.userName
    case UserId => a.userId
    case UserEmail => a.userEmail
  }

  /** The position of a field's line in the information block. */
  function Rank(f: Field): nat
  {
    match f
    case UserName => 0
    case UserId => 1
    case UserEmail => 2
  }

  function Label(f: Field): string
  {
    match f
    case UserName => "Username : "
    case UserId => "UserId : "
    case UserEmail => "UserEmail : "
  }

  datatype Section =
    | DateLine(date: string)
    | InfoHeader
    | UserLine(field: Field, value: string)
    | Separator
    | DeviceBlock(text: string)
    | StackHeader
    | RootTrace(text: string)
    | CauseHeader
    | CauseDump(text: string)
    | EndMarker

  /** The operands of the `+=` statements that write a section, in order. */
  function Pieces(s: Section): seq<string>
  {
    match s
    case DateLine(date) => ["Error Report collected on : " + date, "\n"]
    case InfoHeader => ["Information's :", "\n"]
    case UserLine(f, v) => [Label(f) + v, "\n"]
    case Separator => ["\n", "==============", "\n", "\n"]
    case DeviceBlock(text) => [text]
    case StackHeader => ["\n\n", "Stack : \n", "======= \n"]
    case RootTrace(text) => [text]
    case CauseHeader => ["\n", "Cause : \n", "======= \n"]
    case CauseDump(text) => [text]
    case EndMarker => ["****  End of current Report ***"]
  }

  /** Every string appended to the report while writing `ss`, in order. */
  function Fragments(ss: seq<Section>): seq<string>
  {
    if ss == [] then [] else Fragments(ss[..|ss| - 1]) + Pieces(ss[|ss| - 1])
  }

  /** Writing one more section appends its pieces. */
  lemma FragmentsSnoc(ss: seq<Section>, s: Section)
    ensures Fragments(ss + [s]) == Fragments(ss) + Pieces(s)
  {
    assert (ss + [s])[..|ss|] == ss;
  }

  /** The report text of a list of sections. */
  function RenderAll(ss: seq<Section>): string
  {
    Concat(Fragments(ss))
  }

  /** Appending the concatenation of up to four strings is appending them
      one after another. */
  lemma {:induction false} AppendEach(before: string, p: seq<string>)
    ensures |p| == 1 ==> before + Concat(p) == before + p[0]
    ensures |p| == 2 ==> before + Concat(p) == before + p[0] + p[1]
    ensures |p| == 3 ==> before + Concat(p) == before + p[0] + p[1] + p[2]
    ensures |p| == 4 ==> before + Concat(p) == before + p[0] + p[1] + p[2] + p[3]
    decreases |p|
  {
    if 1 < |p| <= 4 {
      var init := p[..|p| - 1];
      AppendEach(before, init);
      assert before + Concat(p) == before + Concat(init) + p[|p| - 1];
    } else if |p| == 1 {
      ConcatSingle(p[0]);
      assert p == [p[0]];
    }
  }

  /** Writing one more section appends its pieces to the text, one `+=` at
      a time. */
  lemma RenderSnoc(ss: seq<Section>, s: Section)
    ensures var before := RenderAll(ss);
      RenderAll(ss + [s]) == match s
        case DateLine(date) => before + ("Error Report collected on : " + date) + "\n"
        case InfoHeader => before + "Information's :" + "\n"
        case UserLine(f, v) => before + (Label(f) + v) + "\n"
        case Separator => before + "\n" + "==============" + "\n" + "\n"
        case DeviceBlock(text) => before + text
        case StackHeader => before + "\n\n" + "Stack : \n" + "======= \n"
        case RootTrace(text) => before + text
        case CauseHeader => before + "\n" + "Cause : \n" + "======= \n"
        case CauseDump(text) => before + text
        case EndMarker => before + "****  End of current Report ***"
  {
    FragmentsSnoc(ss, s);
    ConcatAppend(Fragments(ss), Pieces(s));
    AppendEach(RenderAll(ss), Pieces(s));
  }

  /** The root trace is appended as printed. */
  lemma RenderRootTrace(ss: seq<Section>, trace: string)
    ensures RenderAll(ss + [RootTrace(trace)]) == RenderAll(ss) + trace
  {
    RenderSnoc(ss, RootTrace(trace));
  }

  /** The end marker closes the report text. */
  lemma RenderEndMarker(ss: seq<Section>)
    ensures RenderAll(ss + [EndMarker]) == RenderAll(ss) + "****  End of current Report ***"
  {
    RenderSnoc(ss, EndMarker);
  }

  /** One line per non-null annotation field, in the order name, id, email. */
  function UserLines(a: Annotations): seq<Section>
  {
    FieldLine(a, UserName) + FieldLine(a, UserId) + FieldLine(a, UserEmail)
  }

  /** The line the `if (null != field)` block writes: none when the field
      is null. */
  function FieldLine(a: Annotations, f: Field): seq<Section>
  {
    match FieldValue(a, f)
    case None => []
    case Some(v) => [UserLine(f, v)]
  }

  /** The text the `if (null != field)` block appends. */
  lemma RenderFieldLine(ss: seq<Section>, a: Annotations, f: Field)
    ensures FieldValue(a, f).None? ==> RenderAll(ss + FieldLine(a, f)) == RenderAll(ss)
    ensures FieldValue(a, f).Some? ==>
      RenderAll(ss + FieldLine(a, f)) == RenderAll(ss) + (Label(f) + FieldValue(a, f).value) + "\n"
  {
    if FieldValue(a, f).None? {
      assert ss + FieldLine(a, f) == ss;
    } else {
      RenderSnoc(ss, UserLine(f, FieldValue(a, f).value));
    }
  }

  /** The sections written before the cause loop starts. */
  function HeadSections(date: string, a: Annotations, device: string, rootTrace: string, hasCause: bool)
    : seq<Section>
  {
    InfoSections(date, a, device) + [RootTrace(rootTrace)] + CauseHeaderLine(hasCause)
  }

  /** The sections written before the stack trace: date, information
      block, separator, device information and stack header. */
  function InfoSections(date: string, a: Annotations, device: string): seq<Section>
  {
    [DateLine(date)] + [InfoHeader]
    + FieldLine(a, UserName) + FieldLine(a, UserId) + FieldLine(a, UserEmail)
    + [Separator] + [DeviceBlock(device)] + [StackHeader]
  }

  /** The header the `if (cause != null)` block writes: none without a cause. */
  function CauseHeaderLine(hasCause: bool): seq<Section>
  {
    if hasCause then [CauseHeader] else []
  }

  /** The text the `if (cause != null)` block appends. */
  lemma RenderCauseHeaderLine(ss: seq<Section>, hasCause: bool)
    ensures !hasCause ==> RenderAll(ss + CauseHeaderLine(hasCause)) == RenderAll(ss)
    ensures hasCause ==>
      RenderAll(ss + CauseHeaderLine(hasCause)) == RenderAll(ss) + "\n" + "Cause : \n" + "======= \n"
  {
    if hasCause {
      RenderSnoc(ss, CauseHeader);
    } else {
      assert ss + CauseHeaderLine(hasCause) == ss;
    }
  }

  /** What the cause loop appends: on its k-th iteration the whole
      `StringWriter` buffer, which holds the root trace followed by the
      traces of the first k causes. */
  function CauseDumps(rootTrace: string, causeTraces: seq<string>): seq<Section>
  {
    seq(|causeTraces|, k requires 0 <= k < |causeTraces| => CauseDump(rootTrace + Concat(causeTraces[..k + 1])))
  }

  /** The whole report, given the traces of the causes the loop visits. */
  function ReportSections(date: string, a: Annotations, device: string, rootTrace: string, causeTraces: seq<string>)
    : seq<Section>
  {
    HeadSections(date, a, device, rootTrace, |causeTraces| > 0)
    + CauseDumps(rootTrace, causeTraces)
    + [EndMarker]
  }

  /** One more loop iteration adds one dump: the buffer grown by the next
      cause's trace. */
  lemma CauseDumpsSnoc(rootTrace: string, causeTraces: seq<string>, i: nat)
    requires i < |causeTraces|
    ensures CauseDumps(rootTrace, causeTraces[..i + 1])
         == CauseDumps(rootTrace, causeTraces[..i]) + [CauseDump(rootTrace + Concat(causeTraces[..i + 1]))]
  {
    var longer, shorter := causeTraces[..i + 1], causeTraces[..i];
    var grown := CauseDumps(rootTrace, longer);
    var extended := CauseDumps(rootTrace, shorter) + [CauseDump(rootTrace + Concat(longer))];
    forall k | 0 <= k < |grown| ensures grown[k] == extended[k] {
      if k < i {
        assert longer[..k + 1] == causeTraces[..k + 1] == shorter[..k + 1];
      } else {
        assert longer[..k + 1] == longer;
      }
    }
  }

  /** One loop iteration appends the grown buffer to the report text. */
  lemma RenderDumpSnoc(head: seq<Section>, rootTrace: string, causeTraces: seq<string>, i: nat)
    requires i < |causeTraces|
    ensures RenderAll(head + CauseDumps(rootTrace, causeTraces[..i + 1]))
         == RenderAll(head + CauseDumps(rootTrace, causeTraces[..i])) + (rootTrace + Concat(causeTraces[..i + 1]))
  {
    var dumps := CauseDumps(rootTrace, causeTraces[..i]);
    var dump := CauseDump(rootTrace + Concat(causeTraces[..i + 1]));
    CauseDumpsSnoc(rootTrace, causeTraces, i);
    assert head + CauseDumps(rootTrace, causeTraces[..i + 1]) == head + dumps + [dump];
    RenderSnoc(head + dumps, dump);
  }

  /** Printing one more cause's trace to the `StringWriter` extends its
      buffer by that trace. */
  lemma BufferSnoc(rootTrace: string, causeTraces: seq<string>, i: nat)
    requires i < |causeTraces|
    ensures rootTrace + Concat(causeTraces[..i + 1]) == rootTrace + Concat(causeTraces[..i]) + causeTraces[i]
  {
    assert causeTraces[..i + 1][..i] == causeTraces[..i];
  }

  /** The number of times section `s` occurs in `ss`. */
  function Occurrences(ss: seq<Section>, s: Section): nat
  {
    if ss == [] then 0
    else Occurrences(ss[..|ss| - 1], s) + (if ss[|ss| - 1] == s then 1 else 0)
  }

  lemma {:induction false} OccurrencesAppend(a: seq<Section>, b: seq<Section>, s: Section)
    ensures Occurrences(a + b, s) == Occurrences(a, s) + Occurrences(b, s)
    decreases |b|
  {
    if b == [] {
      assert a + b == a;
    } else {
      var last := |b| - 1;
      assert (a + b)[..|a + b| - 1] == a + b[..last];
      OccurrencesAppend(a, b[..last], s);
    }
  }

  lemma {:induction false} OccurrencesAbsent(ss: seq<Section>, s: Section)
    requires s !in ss
    ensures Occurrences(ss, s) == 0
    decreases |ss|
  {
    if ss != [] {
      OccurrencesAbsent(ss[..|ss| - 1], s);
    }
  }

  /** The trace `printStackTrace` writes for the crashing throwable; nothing
      is written for a null one. */
  function RootTraceOf(h: Heap, exception: Option<ThrowId>): string
    requires InHeap(h, exception)
  {
    match exception
    case None => ""
    case Some(e) => h[e].trace
  }

  /** The first value of the loop variable `cause`: `exception?.cause`. */
  function FirstCause(h: Heap, exception: Option<ThrowId>): (c: Option<ThrowId>)
    requires Closed(h) && InHeap(h, exception)
    ensures InHeap(h, c)
  {
    match exception
    case None => None
    case Some(e) => h[e].cause
  }

  /** The traces of the given throwables, in order. */
  function TracesOf(h: Heap, ids: seq<ThrowId>): (ts: seq<string>)
    requires forall k :: 0 <= k < |ids| ==> ids[k] in h
    ensures |ts| == |ids|
  {
    seq(|ids|, k requires 0 <= k < |ids| => h[ids[k]].trace)
  }

  /** The crash's section list: the causes are those the loop visits. */
  function CrashSections(date: string, a: Annotations, device: string, h: Heap, exception: Option<ThrowId>)
    : seq<Section>
    requires Closed(h) && InHeap(h, exception) && CauseWalkEnds(h, FirstCause(h, exception))
  {
    var chain := CauseChain(h, FirstCause(h, exception));
    ReportSections(date, a, device, RootTraceOf(h, exception), TracesOf(h, chain))
  }

  /** The report string `uncaughtException` builds. */
  function CrashReport(date: string, a: Annotations, device: string, h: Heap, exception: Option<ThrowId>)
    : string
    requires Closed(h) && InHeap(h, exception) && CauseWalkEnds(h, FirstCause(h, exception))
  {
    RenderAll(CrashSections(date, a, device, h, exception))
  }

  const ReportPrefix: string := "Error Report collected on : "
  const Terminator: string := "****  End of current Report ***"

  /** A section list that starts with a date line and ends with the end
      marker renders to text that starts and ends with them. */
  lemma RenderFramed(ss: seq<Section>, date: string)
    requires |ss| >= 2 && ss[0] == DateLine(date) && ss[|ss| - 1] == EndMarker
    ensures var r := RenderAll(ss);
      && |ReportPrefix + date| + |Terminator| <= |r|
      && r[..|ReportPrefix + date|] == ReportPrefix + date
      && r[|r| - |Terminator|..] == Terminator
  {
    RenderStartsWithDate(ss, date);
    RenderEndsWithTerminator(ss);
    var init := ss[..|ss| - 1];
    assert init[..1] == ss[..1];
    RenderStartsWithDate(init, date);
  }

  /** The text of sections that start with a date line starts with the
      collection date. */
  lemma RenderStartsWithDate(ss: seq<Section>, date: string)
    requires |ss| >= 1 && ss[0] == DateLine(date)
    ensures var r := RenderAll(ss);
      |ReportPrefix + date| <= |r| && r[..|ReportPrefix + date|] == ReportPrefix + date
  {
    var fs := Fragments(ss);
    FragmentsStartWith(ss, 1);
    assert ss[..1] == [DateLine(date)];
    FragmentsSnoc([], DateLine(date));
    assert fs[0] == ReportPrefix + date;
    assert fs == [fs[0]] + fs[1..];
    ConcatAppend([fs[0]], fs[1..]);
    ConcatSingle(fs[0]);
  }

  /** The text of sections that end with the end marker ends with it. */
  lemma RenderEndsWithTerminator(ss: seq<Section>)
    requires |ss| >= 1 && ss[|ss| - 1] == EndMarker
    ensures var r := RenderAll(ss);
      |Terminator| <= |r| && r[|r| - |Terminator|..] == Terminator
      && RenderAll(ss) == RenderAll(ss[..|ss| - 1]) + Terminator
  {
    assert ss == ss[..|ss| - 1] + [EndMarker];
    RenderSnoc(ss[..|ss| - 1], EndMarker);
  }

  /** The fragments of a prefix of the sections begin the fragments of the whole. */
  lemma {:induction false} FragmentsStartWith(ss: seq<Section>, k: nat)
    requires k <= |ss|
    ensures |Fragments(ss[..k])| <= |Fragments(ss)|
    ensures Fragments(ss)[..|Fragments(ss[..k])|] == Fragments(ss[..k])
    decreases |ss|
  {
    if k < |ss| {
      var init := ss[..|ss| - 1];
      assert init[..k] == ss[..k];
      FragmentsStartWith(init, k);
    } else {
      assert ss[..k] == ss;
    }
  }

  /** Every report opens with the collection date and closes with the
      end-of-report marker. */
  lemma ReportFramed(date: string, a: Annotations, device: string, h: Heap, exception: Option<ThrowId>)
    requires Closed(h) && InHeap(h, exception) && CauseWalkEnds(h, FirstCause(h, exception))
    ensures var r := CrashReport(date, a, device, h, exception);
      && |ReportPrefix + date| + |Terminator| <= |r|
      && r[..|ReportPrefix + date|] == ReportPrefix + date
      && r[|r| - |Terminator|..] == Terminator
  {
    var chain := CauseChain(h, FirstCause(h, exception));
    ReportLayout(date, a, device, RootTraceOf(h, exception), TracesOf(h, chain));
    RenderFramed(CrashSections(date, a, device, h, exception), date);
  }

  /** The sections come in the order the source writes them: date,
      information header, one line per set annotation, separator, device
      block, stack header, root trace, then (if there is a cause) the cause
      header and one dump per cause, and the end marker last. The user lines
      are those of `UserLines` (name, id, email; see `UserLinesExact`) and
      the dumps are those of `CauseDumps`, in the loop's order. */
  lemma ReportLayout(date: string, a: Annotations, device: string, rootTrace: string, causeTraces: seq<string>)
    ensures var ss, n, c := ReportSections(date, a, device, rootTrace, causeTraces), |UserLines(a)|,
                            if |causeTraces| > 0 then 1 else 0;
      && |ss| == 7 + n + c + |causeTraces|
      && ss[0] == DateLine(date) && ss[1] == InfoHeader
      && ss[2..2 + n] == UserLines(a)
      && ss[2 + n] == Separator && ss[3 + n] == DeviceBlock(device)
      && ss[4 + n] == StackHeader && ss[5 + n] == RootTrace(rootTrace)
      && (c == 1 ==> ss[6 + n] == CauseHeader)
      && ss[6 + n + c..|ss| - 1] == CauseDumps(rootTrace, causeTraces)
      && ss[|ss| - 1] == EndMarker
  {
    var ss := ReportSections(date, a, device, rootTrace, causeTraces);
    var n, c := |UserLines(a)|, if |causeTraces| > 0 then 1 else 0;
    var users, dumps := UserLines(a), CauseDumps(rootTrace, causeTraces);
    assert ss == [DateLine(date), InfoHeader] + users
                 + [Separator, DeviceBlock(device), StackHeader, RootTrace(rootTrace)]
                 + CauseHeaderLine(|causeTraces| > 0) + dumps + [EndMarker];
  }

  /** The information block holds a line `Label : v` exactly when that
      field is set to `v`; its lines are in the order name, id, email and
      there is one per set field. */
  lemma UserLinesExact(a: Annotations)
    ensures forall f, v :: UserLine(f, v) in UserLines(a) <==> FieldValue(a, f) == Some(v)
    ensures forall i, j :: 0 <= i < j < |UserLines(a)| ==>
      UserLines(a)[i].UserLine? && UserLines(a)[j].UserLine?
      && Rank(UserLines(a)[i].field) < Rank(UserLines(a)[j].field)
    ensures |UserLines(a)| ==
      (if a.userName.Some? then 1 else 0) + (if a.userId.Some? then 1 else 0)
      + (if a.userEmail.Some? then 1 else 0)
  {
    var n, d, e := FieldLine(a, UserName), FieldLine(a, UserId), FieldLine(a, UserEmail);
    var u := UserLines(a);
    forall i | 0 <= i < |u|
      ensures u[i].UserLine?
      ensures Rank(u[i].field) == if i < |n| then 0 else if i < |n| + |d| then 1 else 2
    {
      if i < |n| {
        assert u[i] == n[i];
      } else if i < |n| + |d| {
        assert u[i] == d[i - |n|];
      } else {
        assert u[i] == e[i - |n| - |d|];
      }
    }
  }

  /** A user line anywhere in the report is one of the information block's,
      so it appears exactly when its field is set. */
  lemma UserLineInReportIff(date: string, a: Annotations, device: string, rootTrace: string,
                            causeTraces: seq<string>, f: Field, v: string)
    ensures UserLine(f, v) in ReportSections(date, a, device, rootTrace, causeTraces)
            <==> FieldValue(a, f) == Some(v)
  {
    var x := UserLine(f, v);
    var dumps := CauseDumps(rootTrace, causeTraces);
    assert x !in dumps by {
      assert forall k :: 0 <= k < |dumps| ==> dumps[k].CauseDump?;
    }
    assert x !in CauseHeaderLine(|causeTraces| > 0);
    var inFields := x in FieldLine(a, UserName) || x in FieldLine(a, UserId) || x in FieldLine(a, UserEmail);
    assert x in InfoSections(date, a, device) <==> inFields;
    assert x in ReportSections(date, a, device, rootTrace, causeTraces) <==> inFields;
    assert x in UserLines(a) <==> inFields;
    UserLinesExact(a);
  }

  lemma NoCauseHeaderBefore(date: string, a: Annotations, device: string, rootTrace: string)
    ensures Occurrences(InfoSections(date, a, device) + [RootTrace(rootTrace)], CauseHeader) == 0
  {
    var before := InfoSections(date, a, device) + [RootTrace(rootTrace)];
    assert CauseHeader !in before by {
      assert CauseHeader !in FieldLine(a, UserName);
      assert CauseHeader !in FieldLine(a, UserId);
      assert CauseHeader !in FieldLine(a, UserEmail);
    }
    OccurrencesAbsent(before, CauseHeader);
  }

  /** The cause header is written once when the crash has a cause and
      never otherwise. */
  lemma CauseHeaderOnce(date: string, a: Annotations, device: string, rootTrace: string, causeTraces: seq<string>)
    ensures Occurrences(ReportSections(date, a, device, rootTrace, causeTraces), CauseHeader)
            == if |causeTraces| > 0 then 1 else 0
  {
    var dumps := CauseDumps(rootTrace, causeTraces);
    var before := InfoSections(date, a, device) + [RootTrace(rootTrace)];
    var header := CauseHeaderLine(|causeTraces| > 0);
    NoCauseHeaderBefore(date, a, device, rootTrace);
    assert CauseHeader !in dumps by {
      assert forall k :: 0 <= k < |dumps| ==> dumps[k].CauseDump?;
    }
    OccurrencesAbsent(dumps, CauseHeader);
    OccurrencesAbsent([EndMarker], CauseHeader);
    OccurrencesAppend(before, header, CauseHeader);
    OccurrencesAppend(before + header, dumps, CauseHeader);
    OccurrencesAppend(before + header + dumps, [EndMarker], CauseHeader);
    if |causeTraces| > 0 {
      assert Occurrences(header, CauseHeader) == Occurrences([], CauseHeader) + 1 by {
        assert header[..0] == [];
      }
    }
  }

  /** The k-th cause dump repeats the root trace and then the traces of
      causes 1 to k, each dump extending the one before it. */
  lemma CauseDumpsAccumulate(rootTrace: string, causeTraces: seq<string>, k: nat)
    requires k < |causeTraces|
    ensures var d := CauseDumps(rootTrace, causeTraces);
      && |d| == |causeTraces|
      && d[k].text == rootTrace + Concat(causeTraces[..k + 1])
      && d[k].text[..|rootTrace|] == rootTrace
      && (k > 0 ==> d[k].text == d[k - 1].text + causeTraces[k])
  {
    var d := CauseDumps(rootTrace, causeTraces);
    if k > 0 {
      assert causeTraces[..k + 1][..k] == causeTraces[..k];
    }
  }

  /** The cause dumps of a report are exactly the sections between the
      root trace (or the cause header) and the end marker, one per cause. */
  lemma DumpsBeforeEnd(date: string, a: Annotations, device: string, rootTrace: string, causeTraces: seq<string>)
    ensures var ss := ReportSections(date, a, device, rootTrace, causeTraces);
      && |causeTraces| + 1 <= |ss|
      && forall k :: 0 <= k < |ss| ==> (ss[k].CauseDump? <==> |ss| - 1 - |causeTraces| <= k < |ss| - 1)
  {
    var ss := ReportSections(date, a, device, rootTrace, causeTraces);
    ReportLayout(date, a, device, rootTrace, causeTraces);
    var nm, id, em := FieldLine(a, UserName), FieldLine(a, UserId), FieldLine(a, UserEmail);
    var n, dumps := |UserLines(a)|, CauseDumps(rootTrace, causeTraces);
    forall k | 0 <= k < |ss| ensures ss[k].CauseDump? <==> |ss| - 1 - |causeTraces| <= k < |ss| - 1 {
      if 2 <= k < 2 + n {
        var u := k - 2;
        assert ss[k] == ss[2..2 + n][u] == UserLines(a)[u];
        if u < |nm| {
          assert UserLines(a)[u] == nm[u];
        } else if u < |nm| + |id| {
          assert UserLines(a)[u] == id[u - |nm|];
        } else {
          assert UserLines(a)[u] == em[u - |nm| - |id|];
        }
      } else if |ss| - 1 - |causeTraces| <= k < |ss| - 1 {
        assert ss[k] == dumps[k - (|ss| - 1 - |causeTraces|)];
      }
    }
  }

  /** The report holds one dump per cause the loop visits: its dumps are
      exactly the `|chain|` sections before the end marker. The causes are
      visited along the chain of `getCause()` links. */
  lemma OneDumpPerCause(date: string, a: Annotations, device: string, h: Heap, exception: Option<ThrowId>)
    requires Closed(h) && InHeap(h, exception) && CauseWalkEnds(h, FirstCause(h, exception))
    ensures var chain, ss := CauseChain(h, FirstCause(h, exception)), CrashSections(date, a, device, h, exception);
      && |chain| + 1 <= |ss|
      && (forall k :: 0 <= k < |ss| ==> (ss[k].CauseDump? <==> |ss| - 1 - |chain| <= k < |ss| - 1))
      && Occurrences(ss, CauseHeader) == (if |chain| > 0 then 1 else 0)
      && (|chain| > 0 <==> FirstCause(h, exception).Some?)
      && (forall k :: 0 <= k < |chain| - 1 ==> h[chain[k]].cause == Some(chain[k + 1]))
      && (|chain| > 0 ==> h[chain[|chain| - 1]].cause == None)
  {
    var c := FirstCause(h, exception);
    var chain := CauseChain(h, c);
    var rootTrace, traces := RootTraceOf(h, exception), TracesOf(h, chain);
    CauseHeaderOnce(date, a, device, rootTrace, traces);
    DumpsBeforeEnd(date, a, device, rootTrace, traces);
    forall k | 0 <= k < |chain| - 1 ensures h[chain[k]].cause == Some(chain[k + 1]) {
      WalkStep(h, c, k);
    }
    if |chain| > 0 {
      WalkStep(h, c, |chain| - 1);
    }
  }
}
