/** The two-semaphore, two-queue logger of the RTOS program.

    An LED task and a temperature task each put a record in their own queue and name that
    queue in the shared tag `n`; a logger task takes the record out, formats it into a shared
    buffer and writes it to the UART. Two semaphores are meant to let one task at a time
    touch the tag, the queues and the buffer. The model interleaves single actions of the
    three tasks and of the clock in any order.
  */
module Logger {

  const LOGGER_LED: int := 0
  const LOGGER_TEMP: int := 1
  const QUEUE_LENGTH: nat := 10

  datatype LedToggle = LedToggle(time: nat, count: nat)
  datatype Temperature = Temperature(temp: int, time: nat)

  /** What the text buffer holds; it is uninitialised until the first sprintf. */
  datatype Line = Blank | LedLine(led: LedToggle) | TempLine(reading: Temperature)

  /** Each task is about to perform the action its position names. */
  datatype LedPc = LedSleep | LedPend | LedStamp | LedCount | LedSend | LedTag | LedPost
  datatype TempPc = TempSleep | TempSample | TempStamp | TempPend | TempTag | TempSend | TempPost
  datatype LogPc =
    | LogSleep | LogPend | LogBranch | LogReceiveLed | LogReceiveTemp
    | LogFormatLed | LogFormatTemp | LogWrite | LogPost

  /** A task's position and local variables. */
  datatype LedTask = LedTask(pc: LedPc, data: LedToggle, counter: nat)
  datatype TempTask = TempTask(pc: TempPc, data: Temperature)
  datatype LogTask = LogTask(pc: LogPc, ledOp: LedToggle, tempOp: Temperature, text: Line)

  /** `sent` is a history variable: the records accepted by a queue, in order. */
  datatype State = State(
    canWrite: nat, canRead: nat, n: int, ticks: nat,
    ledQueue: seq<LedToggle>, tempQueue: seq<Temperature>,
    led: LedTask, temp: TempTask, log: LogTask,
    uart: seq<Line>, sent: seq<Line>)

  /** The set-up in main: the write semaphore holds the only token. */
  ghost predicate Initial(s: State) {
    && s.canWrite == 1 && s.canRead == 0 && s.n == 0
    && s.ledQueue == [] && s.tempQueue == [] && s.uart == [] && s.sent == []
    && s.led.pc == LedSleep && s.temp.pc == TempSleep && s.log.pc == LogSleep
    && s.led.counter == 0
  }

  datatype Event = Tick | Led | Temp(sample: int) | Log

  predicate Enabled(s: State, e: Event) {
    match e
    case Tick => true
    case Led => s.led.pc == LedPend ==> s.canWrite > 0
    case Temp(_) => s.temp.pc == TempPend ==> s.canWrite > 0
    case Log => s.log.pc == LogPend ==> s.canRead > 0
  }

  function LedStep(s: State): State
    requires Enabled(s, Led)
  {
    var me := s.led;
    match me.pc
    case LedSleep => s.(led := me.(pc := LedPend))
    case LedPend => s.(canWrite := s.canWrite - 1, led := me.(pc := LedStamp))
    case LedStamp => s.(led := me.(data := me.data.(time := s.ticks), pc := LedCount))
    case LedCount =>
      s.(led := LedTask(LedSend, me.data.(count := me.counter + 1), me.counter + 1))
    case LedSend =>
      var s' := s.(led := me.(pc := LedTag));
      if |s.ledQueue| >= QUEUE_LENGTH then s'
      else s'.(ledQueue := s.ledQueue + [me.data], sent := s.sent + [LedLine(me.data)])
    case LedTag => s.(n := LOGGER_LED, led := me.(pc := LedPost))
    case LedPost => s.(canRead := s.canRead + 1, led := me.(pc := LedSleep))
  }

  function TempStep(s: State, sample: int): State
    requires Enabled(s, Temp(sample))
  {
    var me := s.temp;
    match me.pc
    case TempSleep => s.(temp := me.(pc := TempSample))
    case TempSample => s.(temp := TempTask(TempStamp, me.data.(temp := sample)))
    case TempStamp => s.(temp := TempTask(TempPend, me.data.(time := s.ticks)))
    case TempPend => s.(canWrite := s.canWrite - 1, temp := me.(pc := TempTag))
    case TempTag => s.(n := LOGGER_TEMP, temp := me.(pc := TempSend))
    case TempSend =>
      var s' := s.(temp := me.(pc := TempPost));
      if |s.tempQueue| >= QUEUE_LENGTH then s'
      else s'.(tempQueue := s.tempQueue + [me.data], sent := s.sent + [TempLine(me.data)])
    case TempPost => s.(canRead := s.canRead + 1, temp := me.(pc := TempSleep))
  }

  /** A receive on an empty queue times out and leaves the local record as it was. */
  function LogStep(s: State): State
    requires Enabled(s, Log)
  {
    var me := s.log;
    match me.pc
    case LogSleep => s.(log := me.(pc := LogPend))
    case LogPend => s.(canRead := s.canRead - 1, log := me.(pc := LogBranch))
    case LogBranch =>
      s.(log := me.(pc := if s.n == LOGGER_LED then LogReceiveLed
                          else if s.n == LOGGER_TEMP then LogReceiveTemp else LogWrite))
    case LogReceiveLed =>
      if s.ledQueue == [] then s.(log := me.(pc := LogFormatLed))
      else s.(ledQueue := s.ledQueue[1..], log := me.(ledOp := s.ledQueue[0], pc := LogFormatLed))
    case LogReceiveTemp =>
      if s.tempQueue == [] then s.(log := me.(pc := LogFormatTemp))
      else s.(tempQueue := s.tempQueue[1..], log := me.(tempOp := s.tempQueue[0], pc := LogFormatTemp))
    case LogFormatLed => s.(log := me.(text := LedLine(me.ledOp), pc := LogWrite))
    case LogFormatTemp => s.(log := me.(text := TempLine(me.tempOp), pc := LogWrite))
    case LogWrite => s.(uart := s.uart + [me.text], log := me.(pc := LogPost))
    case LogPost => s.(canWrite := s.canWrite + 1, log := me.(pc := LogSleep))
  }

  function Step(s: State, e: Event): State
    requires Enabled(s, e)
  {
    match e
    case Tick => s.(ticks := s.ticks + 1)
    case Led => LedStep(s)
    case Temp(sample) => TempStep(s, sample)
    case Log => LogStep(s)
  }

  ghost predicate Run(s: State, es: seq<Event>, t: State)
    decreases es
  {
    if es == [] then s == t else Enabled(s, es[0]) && Run(Step(s, es[0]), es[1..], t)
  }

  ghost predicate Reachable(t: State) {
    exists s, es :: Initial(s) && Run(s, es, t)
  }

  lemma {:induction false} RunConcat(s: State, es: seq<Event>, t: State, fs: seq<Event>, u: State)
    requires Run(s, es, t) && Run(t, fs, u)
    ensures Run(s, es + fs, u)
    decreases es
  {
    if es == [] {
      assert es + fs == fs;
    } else {
      RunConcat(Step(s, es[0]), es[1..], t, fs, u);
      assert (es + fs)[1..] == es[1..] + fs;
    }
  }

  lemma ReachableRun(s: State, es: seq<Event>, t: State)
    requires Reachable(s) && Run(s, es, t)
    ensures Reachable(t)
  {
    var s0, es0 :| Initial(s0) && Run(s0, es0, s);
    RunConcat(s0, es0, s, es, t);
  }

  // ---------------------------------------------------------------------------
  // One token, and where the record under way is

  predicate LedInside(s: State) {
    !s.led.pc.LedSleep? && !s.led.pc.LedPend?
  }

  predicate TempInside(s: State) {
    s.temp.pc.TempTag? || s.temp.pc.TempSend? || s.temp.pc.TempPost?
  }

  predicate LogInside(s: State) {
    !s.log.pc.LogSleep? && !s.log.pc.LogPend?
  }

  function One(b: bool): nat {
    if b then 1 else 0
  }

  /** The two semaphores and whichever task is in its section share one token. */
  function Tokens(s: State): nat {
    s.canWrite + s.canRead + One(LedInside(s)) + One(TempInside(s)) + One(LogInside(s))
  }

  predicate LedQueued(s: State) {
    |s.ledQueue| == 1 && s.tempQueue == [] && s.sent == s.uart + [LedLine(s.ledQueue[0])]
  }

  predicate TempQueued(s: State) {
    s.ledQueue == [] && |s.tempQueue| == 1 && s.sent == s.uart + [TempLine(s.tempQueue[0])]
  }

  predicate NothingQueued(s: State) {
    s.ledQueue == [] && s.tempQueue == []
  }

  /** `n` names the queue that holds the one record not yet taken. */
  predicate Tagged(s: State) {
    || (s.n == LOGGER_LED && LedQueued(s))
    || (s.n == LOGGER_TEMP && TempQueued(s))
  }

  /** Where the one record under way is, by holder of the token. */
  predicate InFlight(s: State) {
    if LedInside(s) then
      (match s.led.pc
       case LedTag => LedQueued(s)
       case LedPost => s.n == LOGGER_LED && LedQueued(s)
       case _ => NothingQueued(s) && s.sent == s.uart)
    else if TempInside(s) then
      (match s.temp.pc
       case TempPost => s.n == LOGGER_TEMP && TempQueued(s)
       case TempSend => s.n == LOGGER_TEMP && NothingQueued(s) && s.sent == s.uart
       case _ => NothingQueued(s) && s.sent == s.uart)
    else if LogInside(s) then
      (match s.log.pc
       case LogReceiveLed => s.n == LOGGER_LED && LedQueued(s)
       case LogReceiveTemp => s.n == LOGGER_TEMP && TempQueued(s)
       case LogFormatLed => NothingQueued(s) && s.sent == s.uart + [LedLine(s.log.ledOp)]
       case LogFormatTemp => NothingQueued(s) && s.sent == s.uart + [TempLine(s.log.tempOp)]
       case LogWrite => NothingQueued(s) && s.sent == s.uart + [s.log.text]
       case LogPost => NothingQueued(s) && s.sent == s.uart
       case _ => Tagged(s))
    else if s.canRead == 1 then Tagged(s)
    else NothingQueued(s) && s.sent == s.uart
  }

  ghost predicate FlightInv(s: State) {
    Tokens(s) == 1 && InFlight(s)
  }

  lemma FlightKept(s: State, e: Event)
    requires FlightInv(s) && Enabled(s, e)
    ensures FlightInv(Step(s, e))
  {
    match e
    case Tick =>
    case Led => FlightKeptByLed(s);
    case Temp(sample) => FlightKeptByTemp(s, sample);
    case Log => FlightKeptByLog(s);
  }

  lemma FlightKeptByLed(s: State)
    requires FlightInv(s) && Enabled(s, Led)
    ensures FlightInv(LedStep(s))
  {
    match s.led.pc
    case LedSleep | LedPend =>
    case LedStamp | LedCount =>
    case LedSend | LedTag | LedPost =>
  }

  lemma FlightKeptByTemp(s: State, sample: int)
    requires FlightInv(s) && Enabled(s, Temp(sample))
    ensures FlightInv(TempStep(s, sample))
  {
    match s.temp.pc
    case TempSleep | TempSample | TempStamp =>
    case TempPend | TempTag =>
    case TempSend | TempPost =>
  }

  lemma FlightKeptByLog(s: State)
    requires FlightInv(s) && Enabled(s, Log)
    ensures FlightInv(LogStep(s))
  {
    match s.log.pc
    case LogSleep | LogPend | LogBranch =>
    case LogReceiveLed | LogReceiveTemp =>
    case LogFormatLed | LogFormatTemp =>
    case LogWrite | LogPost =>
  }

  /** The record an action hands to a queue: both queues are empty then, so it is accepted. */
  function NewLines(s: State, e: Event): seq<Line> {
    if e.Led? && s.led.pc == LedSend then [LedLine(s.led.data)]
    else if e.Temp? && s.temp.pc == TempSend then [TempLine(s.temp.data)]
    else []
  }

  lemma SentGrows(s: State, e: Event)
    requires FlightInv(s) && Enabled(s, e)
    ensures Step(s, e).sent == s.sent + NewLines(s, e)
  {
  }

  // ---------------------------------------------------------------------------
  // The counts and times of the records sent

  function Time(l: Line): nat {
    match l
    case Blank => 0
    case LedLine(r) => r.time
    case TempLine(r) => r.time
  }

  /** The toggle counts of the LED lines, in order. */
  function LedCounts(lines: seq<Line>): seq<nat> {
    if lines == [] then []
    else
      var last := lines[|lines| - 1];
      LedCounts(lines[..|lines| - 1]) + if last.LedLine? then [last.led.count] else []
  }

  ghost predicate CountsUp(counts: seq<nat>, m: nat) {
    |counts| == m && forall k :: 0 <= k < m ==> counts[k] == k + 1
  }

  ghost predicate InOrder(lines: seq<Line>) {
    forall i, j :: 0 <= i < j < |lines| ==> Time(lines[i]) <= Time(lines[j])
  }

  /** No LED line is earlier than a line before it. */
  ghost predicate LedTimesInOrder(lines: seq<Line>) {
    forall i, j :: 0 <= i < j < |lines| && lines[j].LedLine? ==> Time(lines[i]) <= Time(lines[j])
  }

  /** No temperature line is earlier than a temperature line before it. */
  ghost predicate TempTimesInOrder(lines: seq<Line>) {
    forall i, j :: 0 <= i < j < |lines| && lines[i].TempLine? && lines[j].TempLine? ==>
      Time(lines[i]) <= Time(lines[j])
  }

  ghost predicate NoLaterThan(lines: seq<Line>, t: nat) {
    forall i :: 0 <= i < |lines| ==> Time(lines[i]) <= t
  }

  ghost predicate TempsNoLaterThan(lines: seq<Line>, t: nat) {
    forall i :: 0 <= i < |lines| && lines[i].TempLine? ==> Time(lines[i]) <= t
  }

  /** A temperature record is stamped and not yet sent. */
  predicate TempStamped(s: State) {
    s.temp.pc.TempPend? || s.temp.pc.TempTag? || s.temp.pc.TempSend?
  }

  /** An LED record is stamped and not yet sent. */
  predicate LedStamped(s: State) {
    s.led.pc.LedCount? || s.led.pc.LedSend?
  }

  /** The LED lines are numbered 1, 2, 3, ... up to the counter, whose own record may be waiting. */
  ghost predicate Numbered(lines: seq<Line>, led: LedTask) {
    && (led.pc == LedSend ==> led.counter >= 1 && led.data.count == led.counter)
    && CountsUp(LedCounts(lines), if led.pc == LedSend then led.counter - 1 else led.counter)
  }

  ghost predicate CountInv(s: State) {
    Numbered(s.sent, s.led)
  }

  ghost predicate LinesInv(lines: seq<Line>, ticks: nat) {
    && Blank !in lines && NoLaterThan(lines, ticks)
    && LedTimesInOrder(lines) && TempTimesInOrder(lines)
  }

  ghost predicate TimeInv(s: State) {
    && LinesInv(s.sent, s.ticks)
    && (TempStamped(s) ==> s.temp.data.time <= s.ticks && TempsNoLaterThan(s.sent, s.temp.data.time))
    && (LedStamped(s) ==> s.led.data.time <= s.ticks && NoLaterThan(s.sent, s.led.data.time))
  }

  ghost predicate Inv(s: State) {
    FlightInv(s) && CountInv(s) && TimeInv(s)
  }

  lemma LedCountsSnoc(lines: seq<Line>, l: Line)
    ensures LedCounts(lines + [l]) == LedCounts(lines) + if l.LedLine? then [l.led.count] else []
  {
    assert (lines + [l])[..|lines|] == lines;
  }

  lemma CountKeptByLed(s: State)
    requires FlightInv(s) && CountInv(s) && Enabled(s, Led)
    ensures CountInv(LedStep(s))
  {
    var t := LedStep(s);
    assert t.sent == s.sent + NewLines(s, Led) by {
      SentGrows(s, Led);
    }
    match s.led.pc
    case LedSend => LedCountsSnoc(s.sent, LedLine(s.led.data));
    case _ => assert t.sent == s.sent;
  }

  lemma CountKeptByTemp(s: State, sample: int)
    requires FlightInv(s) && CountInv(s) && Enabled(s, Temp(sample))
    ensures CountInv(TempStep(s, sample))
  {
    var t := TempStep(s, sample);
    assert t.led == s.led;
    assert t.sent == s.sent + NewLines(s, Temp(sample)) by {
      SentGrows(s, Temp(sample));
    }
    match s.temp.pc
    case TempSend => LedCountsSnoc(s.sent, TempLine(s.temp.data));
    case _ => assert t.sent == s.sent;
  }

  lemma CountKept(s: State, e: Event)
    requires FlightInv(s) && CountInv(s) && Enabled(s, e)
    ensures CountInv(Step(s, e))
  {
    match e
    case Tick =>
    case Led => CountKeptByLed(s);
    case Temp(sample) => CountKeptByTemp(s, sample);
    case Log => assert LogStep(s).sent == s.sent && LogStep(s).led == s.led;
  }

  lemma AppendLed(lines: seq<Line>, r: LedToggle, ticks: nat)
    requires LinesInv(lines, ticks) && NoLaterThan(lines, r.time) && r.time <= ticks
    ensures LinesInv(lines + [LedLine(r)], ticks)
  {
  }

  lemma AppendTemp(lines: seq<Line>, r: Temperature, ticks: nat)
    requires LinesInv(lines, ticks) && TempsNoLaterThan(lines, r.time) && r.time <= ticks
    ensures LinesInv(lines + [TempLine(r)], ticks)
  {
  }

  lemma TimeKeptByLed(s: State)
    requires FlightInv(s) && TimeInv(s) && Enabled(s, Led)
    ensures TimeInv(LedStep(s))
  {
    SentGrows(s, Led);
    match s.led.pc
    case LedSend => AppendLed(s.sent, s.led.data, s.ticks);
    case LedStamp =>
    case _ => assert LedStep(s).sent == s.sent;
  }

  lemma TimeKeptByTemp(s: State, sample: int)
    requires FlightInv(s) && TimeInv(s) && Enabled(s, Temp(sample))
    ensures TimeInv(TempStep(s, sample))
  {
    SentGrows(s, Temp(sample));
    match s.temp.pc
    case TempSend => AppendTemp(s.sent, s.temp.data, s.ticks);
    case TempStamp =>
    case _ => assert TempStep(s, sample).sent == s.sent;
  }

  lemma TimeKept(s: State, e: Event)
    requires FlightInv(s) && TimeInv(s) && Enabled(s, e)
    ensures TimeInv(Step(s, e))
  {
    match e
    case Tick =>
    case Led => TimeKeptByLed(s);
    case Temp(sample) => TimeKeptByTemp(s, sample);
    case Log =>
  }

  lemma StepKeepsInv(s: State, e: Event)
    requires Inv(s) && Enabled(s, e)
    ensures Inv(Step(s, e))
  {
    FlightKept(s, e);
    CountKept(s, e);
    TimeKept(s, e);
  }

  lemma {:induction false} RunKeepsInv(s: State, es: seq<Event>, t: State)
    requires Inv(s) && Run(s, es, t)
    ensures Inv(t)
    decreases es
  {
    if es == [] {
    } else {
      StepKeepsInv(s, es[0]);
      RunKeepsInv(Step(s, es[0]), es[1..], t);
    }
  }

  lemma ReachableInv(t: State)
    requires Reachable(t)
    ensures Inv(t)
  {
    var s, es :| Initial(s) && Run(s, es, t);
    RunKeepsInv(s, es, t);
  }

  lemma LogStepMeans(s: State)
    requires FlightInv(s) && Enabled(s, Log)
    ensures var t := LogStep(s);
            && t.sent == s.sent
            && (s.log.pc == LogReceiveLed ==> |s.ledQueue| == 1 && t.ledQueue == [] && t.log.ledOp == s.ledQueue[0])
            && (s.log.pc == LogReceiveTemp ==> |s.tempQueue| == 1 && t.tempQueue == [] && t.log.tempOp == s.tempQueue[0])
            && (s.log.pc == LogWrite ==> |t.uart| == |s.uart| + 1 && t.uart == s.sent)
            && (s.log.pc != LogWrite ==> t.uart == s.uart)
  {
  }

  // ---------------------------------------------------------------------------
  // The same actions on the program's own variables, updated in place

  class Board {
    var canWrite: nat
    var canRead: nat
    var n: int
    var ticks: nat
    var ledQueue: seq<LedToggle>
    var tempQueue: seq<Temperature>
    var ledPc: LedPc
    var dataLed: LedToggle
    var timerCounter: nat
    var tempPc: TempPc
    var dataTemp: Temperature
    var logPc: LogPc
    var ledOp: LedToggle
    var tempOp: Temperature
    var data: Line
    var uart: seq<Line>
    ghost var sent: seq<Line>

    ghost function Now(): State
      reads this
    {
      State(canWrite, canRead, n, ticks, ledQueue, tempQueue, LedTask(ledPc, dataLed, timerCounter),
            TempTask(tempPc, dataTemp), LogTask(logPc, ledOp, tempOp, data), uart, sent)
    }

    ghost predicate Valid()
      reads this
    {
      Inv(Now())
    }

    constructor ()
      ensures Initial(Now()) && Valid()
    {
      canWrite, canRead, n, ticks := 1, 0, 0, 0;
      ledQueue, tempQueue, uart, sent := [], [], [], [];
      ledPc, tempPc, logPc, timerCounter := LedSleep, TempSleep, LogSleep, 0;
      dataLed, dataTemp := LedToggle(0, 0), Temperature(0, 0);
      ledOp, tempOp, data := LedToggle(0, 0), Temperature(0, 0), Blank;
    }

    /** What is sent is accepted, carries the next number, and is no earlier than anything sent
        before. */
    method LedAction()
      requires Valid() && Enabled(Now(), Led)
      modifies this
      ensures Valid() && Now() == LedStep(old(Now()))
      ensures old(ledPc) == LedSend ==>
                && sent == old(sent) + [LedLine(old(dataLed))]
                && old(dataLed).count == |LedCounts(old(sent))| + 1
                && NoLaterThan(old(sent), old(dataLed).time)
      ensures old(ledPc) != LedSend ==> sent == old(sent)
      ensures old(ledPc) == LedStamp ==> dataLed.time == ticks == old(ticks)
    {
      StepKeepsInv(Now(), Led);
      SentGrows(Now(), Led);
      if ledPc == LedSleep || ledPc == LedPend || ledPc == LedPost {
        LedSynchronize();
      } else {
        LedProduce();
      }
    }

    method LedSynchronize()
      requires Enabled(Now(), Led) && (ledPc == LedSleep || ledPc == LedPend || ledPc == LedPost)
      modifies this`ledPc, this`canWrite, this`canRead
      ensures Now() == LedStep(old(Now()))
    {
      if ledPc == LedSleep {
        ledPc := LedPend;
      } else if ledPc == LedPend {
        canWrite := canWrite - 1;
        ledPc := LedStamp;
      } else {
        canRead := canRead + 1;
        ledPc := LedSleep;
      }
    }

    method LedProduce()
      requires LedInside(Now()) && ledPc != LedPost
      modifies this`ledPc, this`dataLed, this`timerCounter, this`ledQueue, this`sent, this`n
      ensures Now() == LedStep(old(Now()))
    {
      if ledPc == LedStamp {
        dataLed := LedToggle(ticks, dataLed.count);
        ledPc := LedCount;
      } else if ledPc == LedCount {
        timerCounter := timerCounter + 1;
        dataLed := LedToggle(dataLed.time, timerCounter);
        ledPc := LedSend;
      } else if ledPc == LedSend {
        if |ledQueue| < QUEUE_LENGTH {
          ledQueue := ledQueue + [dataLed];
          sent := sent + [LedLine(dataLed)];
        }
        ledPc := LedTag;
      } else {
        n := LOGGER_LED;
        ledPc := LedPost;
      }
    }

    /** What is sent is accepted and is no earlier than any temperature sent before. */
    method TempAction(sample: int)
      requires Valid() && Enabled(Now(), Temp(sample))
      modifies this
      ensures Valid() && Now() == TempStep(old(Now()), sample)
      ensures old(tempPc) == TempSend ==>
                && sent == old(sent) + [TempLine(old(dataTemp))]
                && TempsNoLaterThan(old(sent), old(dataTemp).time)
      ensures old(tempPc) != TempSend ==> sent == old(sent)
      ensures dataTemp == if old(tempPc) == TempSample then Temperature(sample, old(dataTemp).time)
                          else if old(tempPc) == TempStamp then Temperature(old(dataTemp).temp, ticks)
                          else old(dataTemp)
    {
      StepKeepsInv(Now(), Temp(sample));
      SentGrows(Now(), Temp(sample));
      if tempPc == TempSleep || tempPc == TempPend || tempPc == TempPost {
        TempSynchronize(sample);
      } else {
        TempProduce(sample);
      }
    }

    method TempSynchronize(ghost sample: int)
      requires Enabled(Now(), Temp(sample)) && (tempPc == TempSleep || tempPc == TempPend || tempPc == TempPost)
      modifies this`tempPc, this`canWrite, this`canRead
      ensures Now() == TempStep(old(Now()), sample)
    {
      if tempPc == TempSleep {
        tempPc := TempSample;
      } else if tempPc == TempPend {
        canWrite := canWrite - 1;
        tempPc := TempTag;
      } else {
        canRead := canRead + 1;
        tempPc := TempSleep;
      }
    }

    method TempProduce(sample: int)
      requires tempPc != TempSleep && tempPc != TempPend && tempPc != TempPost
      modifies this`tempPc, this`dataTemp, this`tempQueue, this`sent, this`n
      ensures Now() == TempStep(old(Now()), sample)
    {
      if tempPc == TempSample {
        dataTemp := Temperature(sample, dataTemp.time);
        tempPc := TempStamp;
      } else if tempPc == TempStamp {
        dataTemp := Temperature(dataTemp.temp, ticks);
        tempPc := TempPend;
      } else if tempPc == TempTag {
        n := LOGGER_TEMP;
        tempPc := TempSend;
      } else {
        if |tempQueue| < QUEUE_LENGTH {
          tempQueue := tempQueue + [dataTemp];
          sent := sent + [TempLine(dataTemp)];
        }
        tempPc := TempPost;
      }
    }

    /** A receive never meets an empty queue, and a write shows the oldest record sent and not
        yet shown. */
    method LogAction()
      requires Valid() && Enabled(Now(), Log)
      modifies this
      ensures Valid() && Now() == LogStep(old(Now()))
      ensures old(logPc) == LogReceiveLed ==> |old(ledQueue)| == 1 && ledQueue == [] && ledOp == old(ledQueue)[0]
      ensures old(logPc) == LogReceiveTemp ==> |old(tempQueue)| == 1 && tempQueue == [] && tempOp == old(tempQueue)[0]
      ensures old(logPc) == LogWrite ==> |uart| == |old(uart)| + 1 && uart == old(sent)
      ensures old(logPc) != LogWrite ==> uart == old(uart)
    {
      StepKeepsInv(Now(), Log);
      LogStepMeans(Now());
      if logPc == LogReceiveLed || logPc == LogReceiveTemp {
        LogReceive();
      } else if logPc == LogFormatLed || logPc == LogFormatTemp || logPc == LogWrite {
        LogShow();
      } else {
        LogSynchronize();
      }
    }

    method LogSynchronize()
      requires Enabled(Now(), Log)
      requires logPc == LogSleep || logPc == LogPend || logPc == LogBranch || logPc == LogPost
      modifies this`logPc, this`canWrite, this`canRead
      ensures Now() == LogStep(old(Now()))
    {
      if logPc == LogSleep {
        logPc := LogPend;
      } else if logPc == LogPend {
        canRead := canRead - 1;
        logPc := LogBranch;
      } else if logPc == LogPost {
        canWrite := canWrite + 1;
        logPc := LogSleep;
      } else if n == LOGGER_LED {
        logPc := LogReceiveLed;
      } else if n == LOGGER_TEMP {
        logPc := LogReceiveTemp;
      } else {
        logPc := LogWrite;
      }
    }

    method LogReceive()
      requires logPc == LogReceiveLed || logPc == LogReceiveTemp
      modifies this`logPc, this`ledOp, this`tempOp, this`ledQueue, this`tempQueue
      ensures Now() == LogStep(old(Now()))
    {
      if logPc == LogReceiveLed {
        if ledQueue != [] {
          ledOp, ledQueue := ledQueue[0], ledQueue[1..];
        }
        logPc := LogFormatLed;
      } else {
        if tempQueue != [] {
          tempOp, tempQueue := tempQueue[0], tempQueue[1..];
        }
        logPc := LogFormatTemp;
      }
    }

    method LogShow()
      requires logPc == LogFormatLed || logPc == LogFormatTemp || logPc == LogWrite
      modifies this`logPc, this`data, this`uart
      ensures Now() == LogStep(old(Now()))
    {
      if logPc == LogFormatLed {
        data := LedLine(ledOp);
        logPc := LogWrite;
      } else if logPc == LogFormatTemp {
        data := TempLine(tempOp);
        logPc := LogWrite;
      } else {
        uart := uart + [data];
        logPc := LogPost;
      }
    }
  }

  // ---------------------------------------------------------------------------
  // Main results

  /** One token: at most one task is in its section and then both semaphores are zero. */
  lemma OneTaskInside(s: State)
    requires Reachable(s)
    ensures Tokens(s) == 1
    ensures !(LedInside(s) && TempInside(s)) && !(LedInside(s) && LogInside(s)) && !(TempInside(s) && LogInside(s))
    ensures LedInside(s) || TempInside(s) || LogInside(s) <==> s.canWrite == 0 && s.canRead == 0
  {
    ReachableInv(s);
  }

  /** No send is refused, no receive finds its queue empty, and whenever the logger may look,
      `n` names the one queue that holds the one record. */
  lemma QueuesMatchTag(s: State)
    requires Reachable(s)
    ensures |s.ledQueue| + |s.tempQueue| <= 1
    ensures s.led.pc == LedSend ==> s.ledQueue == []
    ensures s.temp.pc == TempSend ==> s.tempQueue == []
    ensures s.log.pc == LogReceiveLed ==> |s.ledQueue| == 1
    ensures s.log.pc == LogReceiveTemp ==> |s.tempQueue| == 1
    ensures s.canRead > 0 || s.log.pc == LogBranch ==>
              && s.n in {LOGGER_LED, LOGGER_TEMP}
              && (s.n == LOGGER_LED <==> |s.ledQueue| == 1)
              && (s.n == LOGGER_TEMP <==> |s.tempQueue| == 1)
  {
    ReachableInv(s);
  }

  lemma {:induction false} LedCountsPrefix(lines: seq<Line>, k: nat)
    requires k <= |lines|
    ensures LedCounts(lines[..k]) <= LedCounts(lines)
    decreases |lines|
  {
    if k == |lines| {
      assert lines[..k] == lines;
    } else {
      var front := lines[..|lines| - 1];
      LedCountsPrefix(front, k);
      assert front[..k] == lines[..k];
    }
  }

  lemma ShownIsPrefix(s: State)
    requires FlightInv(s)
    ensures s.uart <= s.sent && |s.sent| <= |s.uart| + 1
  {
  }

  lemma PrefixKeepsLines(lines: seq<Line>, shown: seq<Line>, ticks: nat, m: nat)
    requires shown <= lines && LinesInv(lines, ticks) && CountsUp(LedCounts(lines), m)
    ensures LinesInv(shown, ticks) && CountsUp(LedCounts(shown), |LedCounts(shown)|)
  {
    assert shown == lines[..|shown|];
    LedCountsPrefix(lines, |shown|);
    assert forall i :: 0 <= i < |shown| ==> shown[i] == lines[i];
  }

  /** The UART shows the records accepted by the queues, each once, in the order of their
      sends, at most one of them still under way; the LED counts shown are 1, 2, 3, ...; no LED
      time is earlier than a time shown before it, and no temperature time earlier than a
      temperature time before it. */
  lemma LogFollowsProduction(s: State)
    requires Reachable(s)
    ensures s.uart <= s.sent && |s.sent| <= |s.uart| + 1 && Blank !in s.uart
    ensures CountsUp(LedCounts(s.uart), |LedCounts(s.uart)|)
    ensures LedTimesInOrder(s.uart) && TempTimesInOrder(s.uart)
  {
    ReachableInv(s);
    ShownIsPrefix(s);
    PrefixKeepsLines(s.sent, s.uart, s.ticks, |LedCounts(s.sent)|);
  }

  // ---------------------------------------------------------------------------
  // Exactly when the times of all records are in order. The temperature task reads the clock
  // before it waits for the token, so an LED record stamped during that wait can overtake it.

  /** An LED record is stamped at a later tick than that of a temperature record then waiting. */
  predicate Overtakes(s: State, e: Event) {
    e.Led? && s.led.pc == LedStamp && s.temp.pc == TempPend && s.ticks > s.temp.data.time
  }

  predicate SendsTemp(s: State, e: Event) {
    e.Temp? && s.temp.pc == TempSend
  }

  /** Some event of the run sends a temperature record. */
  ghost predicate TempSentLater(s: State, es: seq<Event>)
    decreases es
  {
    es != [] && Enabled(s, es[0]) && (SendsTemp(s, es[0]) || TempSentLater(Step(s, es[0]), es[1..]))
  }

  /** Some event of the run overtakes a waiting temperature record, and a temperature record is
      sent after it. */
  ghost predicate Overtaken(s: State, es: seq<Event>)
    decreases es
  {
    es != [] && Enabled(s, es[0]) &&
    ((Overtakes(s, es[0]) && TempSentLater(Step(s, es[0]), es[1..])) || Overtaken(Step(s, es[0]), es[1..]))
  }

  /** The stamped temperature record is earlier than some record sent or stamped. */
  ghost predicate Late(s: State) {
    TempStamped(s) &&
    (!NoLaterThan(s.sent, s.temp.data.time) || (LedStamped(s) && s.led.data.time > s.temp.data.time))
  }

  lemma OrderStep(s: State, e: Event)
    requires Inv(s) && Enabled(s, e)
    ensures InOrder(Step(s, e).sent) <==> InOrder(s.sent) && !(SendsTemp(s, e) && Late(s))
  {
    SentGrows(s, e);
    var t := Step(s, e);
    if InOrder(t.sent) {
      assert forall i :: 0 <= i < |s.sent| ==> t.sent[i] == s.sent[i];
    }
    if SendsTemp(s, e) {
      var last := TempLine(s.temp.data);
      assert t.sent == s.sent + [last];
      assert InOrder(t.sent) ==> forall i :: 0 <= i < |s.sent| ==> Time(t.sent[i]) <= Time(t.sent[|s.sent|]);
    }
  }

  lemma LateStep(s: State, e: Event)
    requires Inv(s) && Enabled(s, e)
    ensures Late(Step(s, e)) <==> (Late(s) && !SendsTemp(s, e)) || Overtakes(s, e)
  {
    match e
    case Tick =>
    case Led => LateLedStep(s);
    case Temp(sample) => LateTempStep(s, sample);
    case Log => assert LogStep(s).sent == s.sent;
  }

  lemma LateTempStep(s: State, sample: int)
    requires Inv(s) && Enabled(s, Temp(sample))
    ensures Late(TempStep(s, sample)) <==> Late(s) && s.temp.pc != TempSend
  {
    match s.temp.pc
    case TempSleep | TempSample =>
    case TempStamp => assert TempStep(s, sample).sent == s.sent;
    case TempPend | TempTag => assert TempStep(s, sample).sent == s.sent;
    case TempSend | TempPost =>
  }

  lemma LateLedStep(s: State)
    requires Inv(s) && Enabled(s, Led)
    ensures Late(LedStep(s)) <==> Late(s) || Overtakes(s, Led)
  {
    SentGrows(s, Led);
    var t := LedStep(s);
    if s.led.pc == LedSend {
      var time := s.temp.data.time;
      assert t.sent[|s.sent|] == LedLine(s.led.data);
      assert NoLaterThan(t.sent, time) <==> NoLaterThan(s.sent, time) && s.led.data.time <= time;
    } else {
      assert t.sent == s.sent;
    }
  }

  lemma {:induction false} OrderOverRun(s: State, es: seq<Event>, t: State)
    requires Inv(s) && Run(s, es, t)
    ensures InOrder(t.sent) <==> InOrder(s.sent) && !(Late(s) && TempSentLater(s, es)) && !Overtaken(s, es)
    decreases es
  {
    if es == [] {
    } else {
      OrderStep(s, es[0]);
      LateStep(s, es[0]);
      StepKeepsInv(s, es[0]);
      OrderOverRun(Step(s, es[0]), es[1..], t);
    }
  }

  /** In every run from the set-up, the times of the records sent never decrease if and only if
      no LED record is stamped at a later tick than a waiting temperature record that is sent
      afterwards. */
  lemma TimesInOrderExactly(s: State, es: seq<Event>, t: State)
    requires Initial(s) && Run(s, es, t)
    ensures InOrder(t.sent) <==> !Overtaken(s, es)
  {
    OrderOverRun(s, es, t);
  }

  // ---------------------------------------------------------------------------
  // Progress: from every reachable state each producer can be heard again

  /** An action of the token's holder, or of a task about to take the token; from an idle state
      that of the producer asked for. */
  function Next(s: State, led: bool): Event {
    if LogInside(s) then Log
    else if LedInside(s) then Led
    else if TempInside(s) then Temp(0)
    else if s.canRead > 0 then Log
    else if led then Led
    else Temp(0)
  }

  /** How many such actions are left before the UART write. */
  function Distance(s: State, led: bool): int {
    if LogInside(s) then
      match s.log.pc
      case LogWrite => 1
      case LogFormatLed | LogFormatTemp => 2
      case LogReceiveLed | LogReceiveTemp => 3
      case LogBranch => 4
      case _ => 16
    else if LedInside(s) then
      match s.led.pc
      case LedPost => 7
      case LedTag => 8
      case LedSend => 9
      case LedCount => 10
      case _ => 11
    else if TempInside(s) then
      match s.temp.pc
      case TempPost => 7
      case TempSend => 8
      case _ => 9
    else if s.canRead > 0 then
      if s.log.pc == LogPend then 5 else 6
    else if led then
      if s.led.pc == LedPend then 12 else 13
    else
      match s.temp.pc
      case TempPend => 12
      case TempStamp => 13
      case TempSample => 14
      case _ => 15
  }

  /** The line under way, or else the next to be produced, is of the given kind. */
  ghost predicate Heading(s: State, led: bool) {
    if s.sent == s.uart then !LogInside(s) && if led then !TempInside(s) else !LedInside(s)
    else s.sent != [] && s.sent[|s.sent| - 1].LedLine? == led
  }

  lemma NextGetsCloser(s: State, led: bool)
    requires FlightInv(s)
    ensures Enabled(s, Next(s, led))
    ensures var t := Step(s, Next(s, led));
            if s.log.pc == LogWrite then t.uart == t.sent == s.sent && t.log.pc == LogPost
            else t.uart == s.uart && Distance(t, led) < Distance(s, led)
  {
    match Next(s, led)
    case Led =>
    case Temp(_) =>
    case Log =>
  }

  lemma NextKeepsHeading(s: State, led: bool)
    requires FlightInv(s) && Enabled(s, Next(s, led)) && Heading(s, led) && s.log.pc != LogWrite
    ensures Heading(Step(s, Next(s, led)), led)
  {
    SentGrows(s, Next(s, led));
    match Next(s, led)
    case Led =>
    case Temp(_) =>
    case Log =>
  }

  lemma TakeNext(s: State, led: bool) returns (t: State)
    requires Inv(s)
    ensures Run(s, [Next(s, led)], t) && Inv(t) && s.sent <= t.sent
    ensures s.log.pc == LogWrite ==> |t.uart| == |s.uart| + 1 && t.uart == t.sent == s.sent && t.log.pc == LogPost
    ensures s.log.pc != LogWrite ==> t.uart == s.uart && Distance(t, led) < Distance(s, led)
    ensures s.log.pc != LogWrite && Heading(s, led) ==> Heading(t, led)
  {
    var e := Next(s, led);
    NextGetsCloser(s, led);
    StepKeepsInv(s, e);
    SentGrows(s, e);
    t := Step(s, e);
    assert Run(s, [e], t) by {
      assert Run(t, [e][1..], t);
    }
    if s.log.pc != LogWrite && Heading(s, led) {
      NextKeepsHeading(s, led);
    }
  }

  lemma {:induction false} CanWriteLine(s: State, led: bool) returns (es: seq<Event>, t: State)
    requires Inv(s)
    ensures Run(s, es, t) && Inv(t)
    ensures s.uart <= t.uart && |t.uart| == |s.uart| + 1 && t.log.pc == LogPost
    ensures s.sent <= t.sent == t.uart
    ensures Heading(s, led) ==> t.uart[|s.uart|].LedLine? == led
    decreases Distance(s, led)
  {
    es := [Next(s, led)];
    t := TakeNext(s, led);
    if s.log.pc != LogWrite {
      var s' := t;
      var rest;
      rest, t := CanWriteLine(s', led);
      RunConcat(s, es, s', rest, t);
      es := es + rest;
    }
  }

  /** From any state the log can be brought to rest, with one line more. */
  lemma CanComeToRest(s: State, led: bool) returns (es: seq<Event>, t: State)
    requires Inv(s)
    ensures Run(s, es, t) && Inv(t) && Heading(t, led)
    ensures s.uart < t.uart && s.sent <= t.sent == t.uart
  {
    var u;
    es, u := CanWriteLine(s, led);
    t := Step(u, Log);
    StepKeepsInv(u, Log);
    assert Run(t, [Log][1..], t);
    RunConcat(s, es, u, [Log], t);
    es := es + [Log];
  }

  /** No reachable state deadlocks or shuts a producer out: a further LED line, and a further
      temperature line, can always be shown. */
  lemma EachProducerHeard(s: State, led: bool) returns (es: seq<Event>, t: State)
    requires Reachable(s)
    ensures Run(s, es, t) && s.uart < t.uart && s.sent < t.sent == t.uart
    ensures var last := t.uart[|t.uart| - 1]; if led then last.LedLine? else last.TempLine?
  {
    ReachableInv(s);
    var idle, fs;
    es, idle := CanComeToRest(s, led);
    fs, t := CanWriteLine(idle, led);
    RunConcat(s, es, idle, fs, t);
    es := es + fs;
    assert t.sent[|t.sent| - 1] != Blank;
  }

  /** Nothing but LED lines is added. */
  ghost predicate GrowsByLed(lines: seq<Line>, more: seq<Line>) {
    lines <= more && forall i :: |lines| <= i < |more| ==> more[i].LedLine?
  }

  lemma QuietStep(s: State, e: Event)
    requires FlightInv(s) && Enabled(s, e) && !SendsTemp(s, e)
    ensures GrowsByLed(s.sent, Step(s, e).sent)
  {
    SentGrows(s, e);
  }

  lemma {:induction false} OnlyTempSendsTemp(s: State, es: seq<Event>, t: State)
    requires FlightInv(s) && Run(s, es, t) && !TempSentLater(s, es)
    ensures GrowsByLed(s.sent, t.sent)
    decreases es
  {
    if es == [] {
    } else {
      QuietStep(s, es[0]);
      FlightKept(s, es[0]);
      OnlyTempSendsTemp(Step(s, es[0]), es[1..], t);
    }
  }

  /** The order does fail: from any reachable state in which a stamped temperature record is
      late, some run shows times out of order. */
  lemma LateRecordBreaksOrder(s: State) returns (t: State)
    requires Reachable(s) && Late(s)
    ensures Reachable(t) && !InOrder(t.uart)
  {
    ReachableInv(s);
    var es;
    es, t := EachProducerHeard(s, false);
    ReachableRun(s, es, t);
    OrderOverRun(s, es, t);
    assert t.sent[|t.sent| - 1].TempLine?;
    if !TempSentLater(s, es) {
      OnlyTempSendsTemp(s, es, t);
    }
  }

  lemma Go(s: State, e: Event) returns (t: State)
    requires Reachable(s) && Enabled(s, e)
    ensures Reachable(t) && t == Step(s, e)
  {
    t := Step(s, e);
    assert Run(t, [e][1..], t);
    ReachableRun(s, [e], t);
  }

  /** Everything at rest but the temperature task and the clock. */
  function AtRest(ticks: nat, temp: TempTask): State {
    State(1, 0, 0, ticks, [], [], LedTask(LedSleep, LedToggle(0, 0), 0), temp,
          LogTask(LogSleep, LedToggle(0, 0), Temperature(0, 0), Blank), [], [])
  }

  lemma TempWaits()
    ensures Reachable(AtRest(1, TempTask(TempPend, Temperature(25, 0))))
  {
    var s := AtRest(0, TempTask(TempSleep, Temperature(0, 0)));
    assert Initial(s) && Run(s, [], s);
    s := Go(s, Temp(25));
    s := Go(s, Temp(25));
    s := Go(s, Temp(25));
    s := Go(s, Tick);
  }

  /** Such a state is seven actions away from the set-up: the temperature task stamps at tick 0
      and waits, the clock ticks, and the LED task stamps. */
  lemma TempTimeCanStepBack() returns (t: State)
    ensures Reachable(t) && !InOrder(t.uart)
  {
    var s := AtRest(1, TempTask(TempPend, Temperature(25, 0)));
    TempWaits();
    s := Go(s, Led);
    s := Go(s, Led);
    s := Go(s, Led);
    t := LateRecordBreaksOrder(s);
  }
}
