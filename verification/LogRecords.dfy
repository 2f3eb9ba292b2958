/** What the log lines of the RTOS program carry, read off the events of a run alone.

    Each task repeats seven actions, so which action an event of a task performs follows from
    the number of its events before. The record sent is then determined by the samples offered
    to the temperature task and by the clock at certain events.
  */
module LogRecords {
  import opened Logger

  // ---------------------------------------------------------------------------
  // The reference: a function of the events

  /** An event of the temperature task: the sample it was offered and the clock before it. */
  datatype Shot = Shot(sample: int, at: nat)

  function Clock(start: nat, es: seq<Event>): nat {
    if es == [] then start
    else Clock(start, es[..|es| - 1]) + if es[|es| - 1].Tick? then 1 else 0
  }

  /** The clock before each event of the LED task. */
  function LedShots(start: nat, es: seq<Event>): seq<nat> {
    if es == [] then []
    else
      var front := es[..|es| - 1];
      LedShots(start, front) + if es[|es| - 1].Led? then [Clock(start, front)] else []
  }

  function TempShots(start: nat, es: seq<Event>): seq<Shot> {
    if es == [] then []
    else
      var front, last := es[..|es| - 1], es[|es| - 1];
      TempShots(start, front) + if last.Temp? then [Shot(last.sample, Clock(start, front))] else []
  }

  function LogEvents(es: seq<Event>): nat {
    if es == [] then 0
    else LogEvents(es[..|es| - 1]) + if es[|es| - 1].Log? then 1 else 0
  }

  /** The LED record handed over by the fifth action of a round: the clock at the third. */
  function LedRecord(shots: seq<nat>): seq<Line> {
    if |shots| % 7 == 4 then [LedLine(LedToggle(shots[|shots| - 2], |shots| / 7 + 1))] else []
  }

  /** The temperature record handed over by the sixth action of a round: the sample of the second
      and the clock at the third. */
  function TempRecord(shots: seq<Shot>): seq<Line> {
    if |shots| % 7 == 5 then [TempLine(Temperature(shots[|shots| - 4].sample, shots[|shots| - 3].at))] else []
  }

  /** What an event hands over, after the events before it. */
  function Handed(start: nat, before: seq<Event>, e: Event): seq<Line> {
    match e
    case Tick => []
    case Led => LedRecord(LedShots(start, before))
    case Temp(_) => TempRecord(TempShots(start, before))
    case Log => []
  }

  /** All records handed over, in order. */
  function Ledger(start: nat, es: seq<Event>): seq<Line> {
    if es == [] then []
    else Ledger(start, es[..|es| - 1]) + Handed(start, es[..|es| - 1], es[|es| - 1])
  }

  // ---------------------------------------------------------------------------
  // The program follows it

  function LedPosition(pc: LedPc): nat {
    match pc
    case LedSleep => 0
    case LedPend => 1
    case LedStamp => 2
    case LedCount => 3
    case LedSend => 4
    case LedTag => 5
    case LedPost => 6
  }

  function TempPosition(pc: TempPc): nat {
    match pc
    case TempSleep => 0
    case TempSample => 1
    case TempStamp => 2
    case TempPend => 3
    case TempTag => 4
    case TempSend => 5
    case TempPost => 6
  }

  function LogPosition(pc: LogPc): nat {
    match pc
    case LogSleep => 0
    case LogPend => 1
    case LogBranch => 2
    case LogReceiveLed | LogReceiveTemp => 3
    case LogFormatLed | LogFormatTemp => 4
    case LogWrite => 5
    case LogPost => 6
  }

  ghost predicate LedFollows(me: LedTask, shots: seq<nat>) {
    var d := |shots|;
    && LedPosition(me.pc) == d % 7 && me.counter == (d + 3) / 7
    && (d % 7 == 3 ==> me.data.time == shots[d - 1])
    && (d % 7 == 4 ==> me.data == LedToggle(shots[d - 2], d / 7 + 1))
  }

  ghost predicate TempFollows(me: TempTask, shots: seq<Shot>) {
    var d := |shots|;
    && TempPosition(me.pc) == d % 7
    && (d % 7 == 2 ==> me.data.temp == shots[d - 1].sample)
    && (d % 7 == 3 ==> me.data == Temperature(shots[d - 2].sample, shots[d - 1].at))
    && (d % 7 == 4 ==> me.data == Temperature(shots[d - 3].sample, shots[d - 2].at))
    && (d % 7 == 5 ==> me.data == Temperature(shots[d - 4].sample, shots[d - 3].at))
  }

  ghost predicate LogFollows(s: State, d: nat) {
    LogPosition(s.log.pc) == d % 7 && |s.uart| == (d + 1) / 7
  }

  ghost predicate Follows(start: nat, es: seq<Event>, s: State) {
    && s.ticks == Clock(start, es) && s.sent == Ledger(start, es)
    && LedFollows(s.led, LedShots(start, es))
    && TempFollows(s.temp, TempShots(start, es))
    && LogFollows(s, LogEvents(es))
  }

  lemma LedStepFollows(s: State, shots: seq<nat>)
    requires Enabled(s, Led) && LedFollows(s.led, shots)
    ensures LedFollows(LedStep(s).led, shots + [s.ticks])
  {
    match s.led.pc
    case LedSleep | LedPend =>
    case LedStamp | LedCount =>
    case LedSend | LedTag | LedPost =>
  }

  lemma TempStepFollows(s: State, sample: int, shots: seq<Shot>)
    requires Enabled(s, Temp(sample)) && TempFollows(s.temp, shots)
    ensures TempFollows(TempStep(s, sample).temp, shots + [Shot(sample, s.ticks)])
  {
    match s.temp.pc
    case TempSleep | TempSample | TempStamp =>
    case TempPend | TempTag =>
    case TempSend | TempPost =>
  }

  lemma LogStepFollows(s: State, d: nat)
    requires FlightInv(s) && Enabled(s, Log) && LogFollows(s, d)
    ensures LogFollows(LogStep(s), d + 1)
  {
  }

  lemma OneMoreEvent(start: nat, es: seq<Event>, e: Event)
    ensures Clock(start, es + [e]) == Clock(start, es) + if e.Tick? then 1 else 0
    ensures LedShots(start, es + [e]) == LedShots(start, es) + if e.Led? then [Clock(start, es)] else []
    ensures TempShots(start, es + [e]) ==
              TempShots(start, es) + if e.Temp? then [Shot(e.sample, Clock(start, es))] else []
    ensures LogEvents(es + [e]) == LogEvents(es) + if e.Log? then 1 else 0
    ensures Ledger(start, es + [e]) == Ledger(start, es) + Handed(start, es, e)
  {
    assert (es + [e])[..|es|] == es;
  }

  lemma LedHandsOver(me: LedTask, shots: seq<nat>)
    requires LedFollows(me, shots)
    ensures LedRecord(shots) == if me.pc == LedSend then [LedLine(me.data)] else []
  {
  }

  lemma TempHandsOver(me: TempTask, shots: seq<Shot>)
    requires TempFollows(me, shots)
    ensures TempRecord(shots) == if me.pc == TempSend then [TempLine(me.data)] else []
  {
  }

  lemma SentFollows(start: nat, es: seq<Event>, s: State, e: Event)
    requires FlightInv(s) && Enabled(s, e)
    requires LedFollows(s.led, LedShots(start, es)) && TempFollows(s.temp, TempShots(start, es))
    ensures Step(s, e).sent == s.sent + Handed(start, es, e)
  {
    assert Handed(start, es, e) == NewLines(s, e) by {
      LedHandsOver(s.led, LedShots(start, es));
      TempHandsOver(s.temp, TempShots(start, es));
    }
    SentGrows(s, e);
  }

  /** The other tasks and their variables are left alone. */
  lemma Untouched(s: State, e: Event)
    requires Enabled(s, e)
    ensures var t := Step(s, e);
            && t.ticks == s.ticks + (if e.Tick? then 1 else 0)
            && (!e.Led? ==> t.led == s.led)
            && (!e.Temp? ==> t.temp == s.temp)
            && (!e.Log? ==> t.log == s.log && t.uart == s.uart)
  {
  }

  lemma StepFollows(start: nat, es: seq<Event>, s: State, e: Event)
    requires FlightInv(s) && Enabled(s, e) && Follows(start, es, s)
    ensures Follows(start, es + [e], Step(s, e))
  {
    OneMoreEvent(start, es, e);
    SentFollows(start, es, s, e);
    Untouched(s, e);
    match e
    case Tick =>
    case Led => LedStepFollows(s, LedShots(start, es));
    case Temp(sample) => TempStepFollows(s, sample, TempShots(start, es));
    case Log => LogStepFollows(s, LogEvents(es));
  }

  lemma {:induction false} RunFollows(start: nat, before: seq<Event>, s: State, es: seq<Event>, t: State)
    requires FlightInv(s) && Follows(start, before, s) && Run(s, es, t)
    ensures FlightInv(t) && Follows(start, before + es, t)
    decreases es
  {
    if es == [] {
      assert before + es == before;
    } else {
      var more, next := before + [es[0]], Step(s, es[0]);
      assert before + es == more + es[1..];
      StepFollows(start, before, s, es[0]);
      FlightKept(s, es[0]);
      RunFollows(start, more, next, es[1..], t);
    }
  }

  // ---------------------------------------------------------------------------
  // The records of each kind

  function LedRecords(lines: seq<Line>): seq<LedToggle> {
    if lines == [] then []
    else
      var last := lines[|lines| - 1];
      LedRecords(lines[..|lines| - 1]) + if last.LedLine? then [last.led] else []
  }

  function TempRecords(lines: seq<Line>): seq<Temperature> {
    if lines == [] then []
    else
      var last := lines[|lines| - 1];
      TempRecords(lines[..|lines| - 1]) + if last.TempLine? then [last.reading] else []
  }

  lemma RecordsSnoc(lines: seq<Line>, l: Line)
    ensures LedRecords(lines + [l]) == LedRecords(lines) + if l.LedLine? then [l.led] else []
    ensures TempRecords(lines + [l]) == TempRecords(lines) + if l.TempLine? then [l.reading] else []
  {
    assert (lines + [l])[..|lines|] == lines;
  }

  /** The k-th LED record is stamped by the third action of the task's k-th round. */
  ghost predicate LedRecordsFrom(records: seq<LedToggle>, shots: seq<nat>) {
    && |records| == (|shots| + 2) / 7
    && forall k :: 0 <= k < |records| ==> records[k] == LedToggle(shots[7 * k + 2], k + 1)
  }

  /** The k-th temperature record holds the sample offered to the second action of the task's k-th
      round and is stamped by the third. */
  ghost predicate TempRecordsFrom(records: seq<Temperature>, shots: seq<Shot>) {
    && |records| == (|shots| + 1) / 7
    && forall k :: 0 <= k < |records| ==>
         records[k] == Temperature(shots[7 * k + 1].sample, shots[7 * k + 2].at)
  }

  /** Records are complete up to the event before the one that hands over the next. */
  lemma Rounds(d: nat, sendsAt: nat)
    requires sendsAt < 7
    ensures (d + 6 - sendsAt) / 7 * 7 <= d + 6 - sendsAt
    ensures d % 7 == sendsAt ==> d == 7 * ((d + 6 - sendsAt) / 7) + sendsAt && d / 7 == (d + 6 - sendsAt) / 7
    ensures (d + 7 - sendsAt) / 7 == (d + 6 - sendsAt) / 7 + if d % 7 == sendsAt then 1 else 0
  {
  }

  lemma AppendLedRecord(records: seq<LedToggle>, shots: seq<nat>, at: nat)
    requires LedRecordsFrom(records, shots)
    ensures LedRecordsFrom(records + (if |shots| % 7 == 4 then [LedToggle(shots[|shots| - 2], |shots| / 7 + 1)] else []),
                           shots + [at])
  {
    Rounds(|shots|, 4);
    forall k | 0 <= k < |records| ensures records[k] == LedToggle((shots + [at])[7 * k + 2], k + 1) {
    }
  }

  lemma AppendTempRecord(records: seq<Temperature>, shots: seq<Shot>, shot: Shot)
    requires TempRecordsFrom(records, shots)
    ensures TempRecordsFrom(
              records + (if |shots| % 7 == 5 then [Temperature(shots[|shots| - 4].sample, shots[|shots| - 3].at)] else []),
              shots + [shot])
  {
    Rounds(|shots|, 5);
    forall k | 0 <= k < |records|
      ensures records[k] == Temperature((shots + [shot])[7 * k + 1].sample, (shots + [shot])[7 * k + 2].at)
    {
    }
  }

  lemma OneMoreLed(lines: seq<Line>, shots: seq<nat>, at: nat)
    requires LedRecordsFrom(LedRecords(lines), shots)
    ensures LedRecordsFrom(LedRecords(lines + LedRecord(shots)), shots + [at])
    ensures TempRecords(lines + LedRecord(shots)) == TempRecords(lines)
  {
    AppendLedRecord(LedRecords(lines), shots, at);
    if |shots| % 7 == 4 {
      RecordsSnoc(lines, LedRecord(shots)[0]);
    } else {
      assert lines + LedRecord(shots) == lines;
      assert LedRecords(lines) + [] == LedRecords(lines);
    }
  }

  lemma OneMoreTemp(lines: seq<Line>, shots: seq<Shot>, shot: Shot)
    requires TempRecordsFrom(TempRecords(lines), shots)
    ensures TempRecordsFrom(TempRecords(lines + TempRecord(shots)), shots + [shot])
    ensures LedRecords(lines + TempRecord(shots)) == LedRecords(lines)
  {
    AppendTempRecord(TempRecords(lines), shots, shot);
    if |shots| % 7 == 5 {
      RecordsSnoc(lines, TempRecord(shots)[0]);
    } else {
      assert lines + TempRecord(shots) == lines;
      assert TempRecords(lines) + [] == TempRecords(lines);
    }
  }

  ghost predicate ByKind(start: nat, es: seq<Event>) {
    && LedRecordsFrom(LedRecords(Ledger(start, es)), LedShots(start, es))
    && TempRecordsFrom(TempRecords(Ledger(start, es)), TempShots(start, es))
  }

  lemma OneMoreByKind(start: nat, es: seq<Event>, e: Event)
    requires ByKind(start, es)
    ensures ByKind(start, es + [e])
  {
    var lines := Ledger(start, es);
    OneMoreEvent(start, es, e);
    match e
    case Led => OneMoreLed(lines, LedShots(start, es), Clock(start, es));
    case Temp(sample) => OneMoreTemp(lines, TempShots(start, es), Shot(sample, Clock(start, es)));
    case _ => assert Ledger(start, es + [e]) == lines;
  }

  lemma {:induction false} LedgerByKind(start: nat, es: seq<Event>)
    ensures ByKind(start, es)
  {
    if es == [] {
    } else {
      var front := es[..|es| - 1];
      assert es == front + [es[|es| - 1]];
      LedgerByKind(start, front);
      OneMoreByKind(start, front, es[|es| - 1]);
    }
  }

  // ---------------------------------------------------------------------------
  // Main results

  /** Whatever the interleaving, what was sent and what the UART shows is a function of the
      events: the ledger, of which one line is shown for every seven events of the logger. */
  lemma LogIsTheLedger(s: State, es: seq<Event>, t: State)
    requires Initial(s) && Run(s, es, t)
    ensures t.ticks == Clock(s.ticks, es) && t.sent == Ledger(s.ticks, es)
    ensures |t.uart| == (LogEvents(es) + 1) / 7 <= |t.sent| && t.uart == t.sent[..|t.uart|]
  {
    assert Follows(s.ticks, [], s);
    RunFollows(s.ticks, [], s, es, t);
    assert [] + es == es;
    ShownIsPrefix(t);
  }

  /** In particular no sample and no stamp is lost, invented or exchanged: the k-th temperature
      sent is the sample of the k-th round of its task, at that round's stamp; the k-th LED record
      has number k + 1 and the stamp of the k-th round. */
  lemma RecordsCarrySamples(s: State, es: seq<Event>, t: State)
    requires Initial(s) && Run(s, es, t)
    ensures LedRecordsFrom(LedRecords(t.sent), LedShots(s.ticks, es))
    ensures TempRecordsFrom(TempRecords(t.sent), TempShots(s.ticks, es))
  {
    LogIsTheLedger(s, es, t);
    LedgerByKind(s.ticks, es);
  }
}
