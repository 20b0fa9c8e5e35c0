/** The interrupt-safe read of the 48-bit tick counter: a 16-bit timer that runs on by itself, an
    interrupt that counts its periods in 32 bits, and a reader that retries. Timer, interrupt and reader
    take their steps in any order. */
module Tick {
  const PERIOD: nat := 0x1_0000
  const DWORD: nat := 0x1_0000_0000
  const RANGE: nat := 0x1_0000_0000_0000

  // ---------------------------------------------------------------- the parts of the system

  /** Where the reader stands in GetTickCopy; Outside stands for the rest of the program. */
  datatype Pc = Outside | Enable | Pause | Disable | ReadTimer | ReadTicks | CopyTicks | Test

  /** The interrupt routine has two statements. */
  datatype Isr = NotRunning | Incremented

  /** A finished call: the true tick count when it began, when it read the timer, and when it ended,
      and the six bytes it left in vTickReading. */
  datatype Reading = Reading(from: nat, sampled: nat, to: nat, bytes: seq<nat>)

  /** `now` is the true number of timer ticks and `served` that of interrupts, which no program variable
      holds; `from`, `sampled` and `log` are history. */
  datatype State = State(now: nat, served: nat, internalTicks: nat, flag: bool, enabled: bool, isr: Isr,
                         pc: Pc, tempTicks: nat, reading: seq<nat>, from: nat, sampled: nat, log: seq<Reading>)

  datatype Action = TimerTick | IsrIncrement | IsrClear | ReaderStep

  /** The counting of the true ticks at which the interrupt flag rises: on match, when the timer reaches
      0xFFFF; otherwise when it rolls over to 0. */
  function Events(onMatch: bool, now: nat): nat {
    if onMatch then (now + 1) / PERIOD else now / PERIOD
  }

  predicate Rises(onMatch: bool, now: nat) {
    if onMatch then now % PERIOD == 0xFFFF else now % PERIOD == 0
  }

  /** TMR1. */
  function Timer(s: State): nat {
    s.now % PERIOD
  }

  /** After TickInit. */
  function Initial(): State {
    State(0, 0, 0, false, true, NotRunning, Outside, 0, [0, 0, 0, 0, 0, 0], 0, 0, [])
  }

  /** Which step can be next. The interrupt is served at least once per timer period: when the flag rises
      it is not up. The reader does not run while the interrupt routine does. */
  predicate Possible(onMatch: bool, s: State, a: Action) {
    match a
    case TimerTick => Rises(onMatch, s.now + 1) ==> !s.flag
    case IsrIncrement => s.isr.NotRunning? && s.enabled && s.flag
    case IsrClear => s.isr.Incremented?
    case ReaderStep => s.isr.NotRunning?
  }

  function Do(onMatch: bool, s: State, a: Action): State {
    match a
    case TimerTick => s.(now := s.now + 1, flag := s.flag || Rises(onMatch, s.now + 1))
    case IsrIncrement => s.(internalTicks := (s.internalTicks + 1) % DWORD, served := s.served + 1, isr := Incremented)
    case IsrClear => s.(flag := false, isr := NotRunning)
    case ReaderStep => Read(onMatch, s)
  }

  /** One statement of GetTickCopy. */
  function Read(onMatch: bool, s: State): State {
    match s.pc
    case Outside => s.(pc := Enable, from := s.now)
    case Enable => s.(enabled := true, pc := Pause)
    case Pause => s.(pc := Disable)
    case Disable => s.(enabled := false, pc := ReadTimer)
    case ReadTimer => s.(reading := LowSet(s.reading, Timer(s)), sampled := s.now, pc := ReadTicks)
    case ReadTicks => s.(tempTicks := s.internalTicks, pc := CopyTicks)
    case CopyTicks => s.(reading := HighSet(s.reading, Adjusted(onMatch, s.tempTicks, Low(s.reading))), pc := Test)
    case Test =>
      if s.flag then s.(pc := Enable)
      else s.(enabled := true, pc := Outside, log := s.log + [Reading(s.from, s.sampled, s.now, s.reading)])
  }

  /** Parts that raise the interrupt on match have already counted the period when the timer reads 0xFFFF. */
  function Adjusted(onMatch: bool, ticks: nat, low: nat): nat {
    if onMatch && low == 0xFFFF then (ticks + DWORD - 1) % DWORD else ticks
  }

  // ---------------------------------------------------------------- the bytes of vTickReading

  function ByteOf(x: nat, i: nat): nat {
    if i == 0 then x % 0x100 else if i == 1 then x / 0x100 % 0x100
    else if i == 2 then x / 0x1_0000 % 0x100 else x / 0x100_0000 % 0x100
  }

  function LowSet(v: seq<nat>, w: nat): seq<nat> {
    if |v| == 6 then [ByteOf(w, 0), ByteOf(w, 1), v[2], v[3], v[4], v[5]] else v
  }

  function HighSet(v: seq<nat>, d: nat): seq<nat> {
    if |v| == 6 then [v[0], v[1], ByteOf(d, 0), ByteOf(d, 1), ByteOf(d, 2), ByteOf(d, 3)] else v
  }

  function Low(v: seq<nat>): nat {
    if |v| == 6 then v[0] + 0x100 * v[1] else 0
  }

  /** Four bytes from the i-th on, as a DWORD. */
  function FourBytes(v: seq<nat>, i: nat): nat
    requires i + 4 <= |v|
  {
    v[i] + 0x100 * v[i + 1] + 0x1_0000 * v[i + 2] + 0x100_0000 * v[i + 3]
  }

  function TickGet(v: seq<nat>): nat
    requires |v| == 6
  {
    FourBytes(v, 0)
  }

  function TickGetDiv256(v: seq<nat>): nat
    requires |v| == 6
  {
    FourBytes(v, 1)
  }

  function TickGetDiv64K(v: seq<nat>): nat
    requires |v| == 6
  {
    FourBytes(v, 2)
  }

  /** The 48-bit value in the reading. */
  function Value(v: seq<nat>): nat
    requires |v| == 6
  {
    v[0] + 0x100 * v[1] + PERIOD * FourBytes(v, 2)
  }

  /** The reading of a tick count. */
  predicate Reads(v: seq<nat>, n: nat) {
    |v| == 6 && v == HighSet(LowSet(v, n % PERIOD), n / PERIOD % DWORD)
  }

  lemma WordOfBytes(w: nat)
    requires w < PERIOD
    ensures ByteOf(w, 0) + 0x100 * ByteOf(w, 1) == w
  {
  }

  lemma DwordOfBytes(d: nat)
    requires d < DWORD
    ensures ByteOf(d, 0) + 0x100 * ByteOf(d, 1) + 0x1_0000 * ByteOf(d, 2) + 0x100_0000 * ByteOf(d, 3) == d
  {
    assert d / 0x100 / 0x100 == d / 0x1_0000 && d / 0x1_0000 / 0x100 == d / 0x100_0000;
  }

  /** A count as six bytes and the part above 48 bits. */
  ghost predicate Digits(v: seq<nat>, n: nat, rest: nat) {
    && |v| == 6 && (forall k :: 0 <= k < 6 ==> v[k] < 0x100)
    && n == v[0] + 0x100 * (v[1] + 0x100 * (v[2] + 0x100 * (v[3] + 0x100 * (v[4] + 0x100 * (v[5] + 0x100 * rest)))))
  }

  lemma ReadingDigits(v: seq<nat>, n: nat)
    requires Reads(v, n)
    ensures Digits(v, n, n / PERIOD / DWORD)
  {
    var w, q := n % PERIOD, n / PERIOD;
    var d := q % DWORD;
    WordOfBytes(w);
    DwordOfBytes(d);
    BytesSmall(w);
    BytesSmall(d);
    hide ByteOf;
    assert n == w + PERIOD * q && q == d + DWORD * (q / DWORD);
  }

  lemma BytesSmall(x: nat)
    ensures forall i: nat :: ByteOf(x, i) < 0x100
  {
  }

  lemma ModDword(r: nat, k: nat)
    requires r < DWORD
    ensures (r + DWORD * k) % DWORD == r
  {
  }

  lemma DivByte(b: nat, x: nat)
    requires b < 0x100
    ensures (b + 0x100 * x) / 0x100 == x
  {
  }

  lemma DivWord(b: nat, c: nat, x: nat)
    requires b < 0x100 && c < 0x100
    ensures (b + 0x100 * (c + 0x100 * x)) / 0x1_0000 == x
  {
  }

  lemma ModRange(r: nat, k: nat)
    requires r < RANGE
    ensures (r + RANGE * k) % RANGE == r
  {
  }

  /** What the ways of reading the bytes return. */
  lemma ReadingParts(v: seq<nat>, n: nat)
    requires Reads(v, n)
    ensures Value(v) == n % RANGE
    ensures TickGet(v) == n % DWORD
    ensures TickGetDiv256(v) == n / 0x100 % DWORD
    ensures TickGetDiv64K(v) == n / 0x1_0000 % DWORD
  {
    ReadingDigits(v, n);
    hide Reads;
    var rest := n / PERIOD / DWORD;
    ModRange(Value(v), rest);
    ModDword(TickGet(v), v[4] + 0x100 * (v[5] + 0x100 * rest));
    ModDword(TickGetDiv256(v), v[5] + 0x100 * rest);
    ModDword(TickGetDiv64K(v), rest);
    DivByte(v[0], v[1] + 0x100 * (v[2] + 0x100 * (v[3] + 0x100 * (v[4] + 0x100 * (v[5] + 0x100 * rest)))));
    DivWord(v[0], v[1], v[2] + 0x100 * (v[3] + 0x100 * (v[4] + 0x100 * (v[5] + 0x100 * rest))));
  }

  // ---------------------------------------------------------------- what holds in every run

  predicate Masked(pc: Pc) {
    pc in {ReadTimer, ReadTicks, CopyTicks, Test}
  }

  predicate HasSampled(pc: Pc) {
    pc in {ReadTicks, CopyTicks, Test}
  }

  /** Interrupts are counted: all that the flag announced, except one while the flag is up. */
  ghost predicate Counted(onMatch: bool, s: State) {
    && s.served + (if s.flag && s.isr.NotRunning? then 1 else 0) == Events(onMatch, s.now)
    && (s.isr.Incremented? ==> s.flag)
    && s.internalTicks == s.served % DWORD
  }

  /** While the interrupt is masked nothing is counted, so the count is that of the sampled instant
      or an earlier one. */
  ghost predicate ReaderInStep(onMatch: bool, s: State) {
    && |s.reading| == 6 && s.sampled <= s.now && s.from <= s.now
    && (Masked(s.pc) ==> !s.enabled && s.isr.NotRunning?)
    && (!Masked(s.pc) && s.pc != Enable ==> s.enabled)
    && (HasSampled(s.pc) ==> s.from <= s.sampled && s.served <= Events(onMatch, s.sampled))
    && (s.pc in {ReadTicks, CopyTicks} ==> s.reading == LowSet(s.reading, s.sampled % PERIOD))
    && (s.pc == CopyTicks ==> s.tempTicks == s.internalTicks)
    && (s.pc == Test ==>
          s.reading == HighSet(LowSet(s.reading, s.sampled % PERIOD), Adjusted(onMatch, s.internalTicks, s.sampled % PERIOD)))
  }

  /** Every finished call read the true count of an instant within the call, and the calls follow one
      another. */
  ghost predicate LogLinear(log: seq<Reading>, now: nat) {
    && (forall k :: 0 <= k < |log| ==> log[k].from <= log[k].sampled <= log[k].to <= now && Reads(log[k].bytes, log[k].sampled))
    && (forall j, k :: 0 <= j < k < |log| ==> log[j].to <= log[k].from)
  }

  ghost predicate Inv(onMatch: bool, s: State) {
    && Counted(onMatch, s) && ReaderInStep(onMatch, s) && LogLinear(s.log, s.now)
    && (s.pc != Outside ==> forall k :: 0 <= k < |s.log| ==> s.log[k].to <= s.from)
  }

  /** The number of announced periods grows by one exactly when the flag rises. */
  lemma EventsStep(onMatch: bool, n: nat)
    ensures Events(onMatch, n + 1) == Events(onMatch, n) + if Rises(onMatch, n + 1) then 1 else 0
  {
  }

  /** The correction gives the upper part of the true count, and without it the count would be wrong
      exactly at 0xFFFF on parts that raise the flag on match. */
  lemma CorrectedCount(onMatch: bool, n: nat)
    ensures Adjusted(onMatch, Events(onMatch, n) % DWORD, n % PERIOD) == n / PERIOD % DWORD
    ensures Events(onMatch, n) == n / PERIOD <==> !(onMatch && n % PERIOD == 0xFFFF)
  {
    var q, r := n / PERIOD, n % PERIOD;
    assert n == PERIOD * q + r;
    if onMatch && r == 0xFFFF {
      assert Events(onMatch, n) == q + 1;
      PredMod(q);
    }
  }

  lemma PredMod(q: nat)
    ensures ((q + 1) % DWORD + DWORD - 1) % DWORD == q % DWORD
  {
  }

  lemma CountedKept(onMatch: bool, s: State, a: Action)
    requires Counted(onMatch, s) && Possible(onMatch, s, a)
    ensures Counted(onMatch, Do(onMatch, s, a))
  {
    hide Events, Rises, Adjusted, ByteOf;
    EventsStep(onMatch, s.now);
    NextMod(s.served);
  }

  lemma NextMod(x: nat)
    ensures (x % DWORD + 1) % DWORD == (x + 1) % DWORD
  {
  }

  lemma EventsGrow(onMatch: bool, a: nat, b: nat)
    requires a <= b
    ensures Events(onMatch, a) <= Events(onMatch, b)
  {
  }

  lemma SetTwice(v: seq<nat>, w: nat, d: nat)
    requires |v| == 6
    ensures LowSet(LowSet(v, w), w) == LowSet(v, w)
    ensures HighSet(LowSet(HighSet(LowSet(v, w), d), w), d) == HighSet(LowSet(v, w), d)
  {
  }

  lemma LowOfSet(v: seq<nat>, w: nat)
    requires |v| == 6 && w < PERIOD
    ensures Low(LowSet(v, w)) == w
  {
    WordOfBytes(w);
  }

  lemma ReaderKept(onMatch: bool, s: State, a: Action)
    requires Counted(onMatch, s) && ReaderInStep(onMatch, s) && Possible(onMatch, s, a)
    ensures ReaderInStep(onMatch, Do(onMatch, s, a))
  {
    hide Events, Rises, Adjusted, ByteOf, Low, LowSet, HighSet;
    SetSizes(s.reading, Timer(s));
    SetTwice(s.reading, Timer(s), 0);
    LowOfSet(s.reading, s.sampled % PERIOD);
    var high := Adjusted(onMatch, s.tempTicks, Low(s.reading));
    SetSizes(s.reading, high);
    SetTwice(s.reading, s.sampled % PERIOD, high);
  }

  lemma SetSizes(v: seq<nat>, w: nat)
    requires |v| == 6
    ensures |LowSet(v, w)| == 6 && |HighSet(v, w)| == 6
  {
  }

  /** The instant at which the call ends: the flag is down, so everything announced up to now has been
      counted, and nothing was announced since the timer was read. */
  lemma ReadingCorrect(onMatch: bool, s: State)
    requires Counted(onMatch, s) && ReaderInStep(onMatch, s) && s.pc == Test && !s.flag
    ensures Reads(s.reading, s.sampled)
  {
    hide Adjusted, ByteOf, Events;
    EventsGrow(onMatch, s.sampled, s.now);
    CorrectedCount(onMatch, s.sampled);
    assert s.served == Events(onMatch, s.sampled);
    var w, d := s.sampled % PERIOD, s.sampled / PERIOD % DWORD;
    SetTwice(s.reading, w, d);
  }

  lemma LogKept(onMatch: bool, s: State, a: Action)
    requires Inv(onMatch, s) && Possible(onMatch, s, a)
    ensures LogLinear(Do(onMatch, s, a).log, Do(onMatch, s, a).now)
  {
    hide Adjusted, ByteOf, Events, Rises, Low, LowSet, HighSet, Reads;
    if a == ReaderStep && s.pc == Test && !s.flag {
      ReadingCorrect(onMatch, s);
    }
  }

  lemma InvKept(onMatch: bool, s: State, a: Action)
    requires Inv(onMatch, s) && Possible(onMatch, s, a)
    ensures Inv(onMatch, Do(onMatch, s, a))
  {
    CountedKept(onMatch, s, a);
    ReaderKept(onMatch, s, a);
    LogKept(onMatch, s, a);
    hide Adjusted, ByteOf, Events, Rises, Low, LowSet, HighSet, Counted, ReaderInStep, LogLinear;
    var s' := Do(onMatch, s, a);
    if s'.pc != Outside {
      FromKept(onMatch, s, a);
    }
  }

  lemma FromKept(onMatch: bool, s: State, a: Action)
    requires Inv(onMatch, s) && Do(onMatch, s, a).pc != Outside
    ensures forall k :: 0 <= k < |Do(onMatch, s, a).log| ==> Do(onMatch, s, a).log[k].to <= Do(onMatch, s, a).from
  {
    hide Adjusted, ByteOf, Events, Rises, Low, LowSet, HighSet, Counted, ReaderInStep, Reads;
  }

  predicate Runs(onMatch: bool, s: State, actions: seq<Action>)
    decreases |actions|
  {
    actions == [] || (Possible(onMatch, s, actions[0]) && Runs(onMatch, Do(onMatch, s, actions[0]), actions[1..]))
  }

  function After(onMatch: bool, s: State, actions: seq<Action>): State
    decreases |actions|
  {
    if actions == [] then s else After(onMatch, Do(onMatch, s, actions[0]), actions[1..])
  }

  lemma {:induction false} RunKeeps(onMatch: bool, s: State, actions: seq<Action>)
    requires Inv(onMatch, s) && Runs(onMatch, s, actions)
    ensures Inv(onMatch, After(onMatch, s, actions))
    decreases |actions|
  {
    hide Inv, Possible, Do;
    if actions != [] {
      InvKept(onMatch, s, actions[0]);
      RunKeeps(onMatch, Do(onMatch, s, actions[0]), actions[1..]);
    }
  }

  lemma InitialInv(onMatch: bool)
    ensures Inv(onMatch, Initial())
  {
  }

  /** In every run from TickInit, in every order of timer, interrupt and reader steps and on both kinds of
      parts, each finished call returned the true 48-bit count of an instant within the call. */
  lemma EveryReadingLinear(onMatch: bool, actions: seq<Action>, k: nat)
    requires Runs(onMatch, Initial(), actions) && k < |After(onMatch, Initial(), actions).log|
    ensures var r := After(onMatch, Initial(), actions).log[k];
            && r.from <= r.sampled <= r.to && |r.bytes| == 6
            && Value(r.bytes) == r.sampled % RANGE && TickGet(r.bytes) == r.sampled % DWORD
            && TickGetDiv256(r.bytes) == r.sampled / 0x100 % DWORD && TickGetDiv64K(r.bytes) == r.sampled / 0x1_0000 % DWORD
  {
    InitialInv(onMatch);
    RunKeeps(onMatch, Initial(), actions);
    var r := After(onMatch, Initial(), actions).log[k];
    assert Reads(r.bytes, r.sampled);
    ReadingParts(r.bytes, r.sampled);
    hide After, Reads, ByteOf;
  }

  /** Steps of the reader alone. */
  function Steps(n: nat): seq<Action> {
    seq(n, _ => ReaderStep)
  }

  lemma OneStep(onMatch: bool, s: State, n: nat)
    requires n > 0 && s.isr.NotRunning?
    ensures Runs(onMatch, s, Steps(n)) == Runs(onMatch, Do(onMatch, s, ReaderStep), Steps(n - 1))
    ensures After(onMatch, s, Steps(n)) == After(onMatch, Do(onMatch, s, ReaderStep), Steps(n - 1))
    ensures Do(onMatch, s, ReaderStep).isr.NotRunning?
  {
    hide Adjusted, ByteOf, Low, LowSet, HighSet;
    assert Steps(n)[0] == ReaderStep && Steps(n)[1..] == Steps(n - 1);
  }

  lemma NoStep(onMatch: bool, s: State)
    ensures Runs(onMatch, s, Steps(0)) && After(onMatch, s, Steps(0)) == s
  {
  }

  /** A call always comes to its end: if no interrupt is due while its eight steps are taken, it returns the
      count of the instant. */
  lemma UndisturbedCall(onMatch: bool, s: State)
    requires Inv(onMatch, s) && s.pc == Outside && !s.flag && s.isr.NotRunning?
    ensures Runs(onMatch, s, Steps(8))
    ensures var s' := After(onMatch, s, Steps(8));
            && s'.pc == Outside && |s'.log| == |s.log| + 1 && s'.log[..|s.log|] == s.log
            && |s'.log[|s.log|].bytes| == 6 && Value(s'.log[|s.log|].bytes) == s.now % RANGE
  {
    hide Adjusted, ByteOf, Low, LowSet, HighSet, Inv, Reads, Value, Runs, After, Steps;
    var s1 := Do(onMatch, s, ReaderStep);
    OneStep(onMatch, s, 8);
    var s2 := Do(onMatch, s1, ReaderStep);
    OneStep(onMatch, s1, 7);
    var s3 := Do(onMatch, s2, ReaderStep);
    OneStep(onMatch, s2, 6);
    var s4 := Do(onMatch, s3, ReaderStep);
    OneStep(onMatch, s3, 5);
    var s5 := Do(onMatch, s4, ReaderStep);
    OneStep(onMatch, s4, 4);
    var s6 := Do(onMatch, s5, ReaderStep);
    OneStep(onMatch, s5, 3);
    var s7 := Do(onMatch, s6, ReaderStep);
    OneStep(onMatch, s6, 2);
    var s8 := Do(onMatch, s7, ReaderStep);
    OneStep(onMatch, s7, 1);
    NoStep(onMatch, s8);
    RunKeeps(onMatch, s, Steps(8));
    assert s8.log == s.log + [s8.log[|s.log|]] && s8.log[|s.log|].sampled == s.now;
    FinishedReading(onMatch, s8, |s.log|);
  }

  lemma FinishedReading(onMatch: bool, s: State, k: nat)
    requires Inv(onMatch, s) && k < |s.log|
    ensures |s.log[k].bytes| == 6 && Value(s.log[k].bytes) == s.log[k].sampled % RANGE
  {
    assert Reads(s.log[k].bytes, s.log[k].sampled);
    ReadingParts(s.log[k].bytes, s.log[k].sampled);
    hide Reads, Value;
  }

  /** In every run the interrupt is enabled whenever no call is under way, and inside a call except from where
      it is disabled up to the test of the flag. */
  lemma EnabledOutside(onMatch: bool, actions: seq<Action>)
    requires Runs(onMatch, Initial(), actions)
    ensures var s := After(onMatch, Initial(), actions);
            && (s.pc in {Outside, Pause, Disable} ==> s.enabled)
            && (s.pc in {ReadTimer, ReadTicks, CopyTicks, Test} ==> !s.enabled)
  {
    hide After, Runs, Counted, LogLinear;
    InitialInv(onMatch);
    RunKeeps(onMatch, Initial(), actions);
  }

  /** As long as the counter has not passed 48 bits, readings never go backwards. */
  lemma ReadingsMonotone(onMatch: bool, actions: seq<Action>, j: nat, k: nat)
    requires Runs(onMatch, Initial(), actions)
    requires j < k < |After(onMatch, Initial(), actions).log| && After(onMatch, Initial(), actions).now < RANGE
    ensures var log := After(onMatch, Initial(), actions).log;
            |log[j].bytes| == |log[k].bytes| == 6 && Value(log[j].bytes) <= Value(log[k].bytes)
            && TickGetDiv64K(log[j].bytes) <= TickGetDiv64K(log[k].bytes)
  {
    hide After, Reads, ByteOf, Value, TickGet, TickGetDiv256, TickGetDiv64K, Runs;
    EveryReadingLinear(onMatch, actions, j);
    EveryReadingLinear(onMatch, actions, k);
    LogInOrder(onMatch, actions, j, k);
    var log := After(onMatch, Initial(), actions).log;
    UpperPart(log[j].sampled, log[k].sampled);
  }

  lemma LogInOrder(onMatch: bool, actions: seq<Action>, j: nat, k: nat)
    requires Runs(onMatch, Initial(), actions) && j < k < |After(onMatch, Initial(), actions).log|
    ensures var s := After(onMatch, Initial(), actions); s.log[j].sampled <= s.log[k].sampled <= s.now
  {
    hide After, Reads, Runs, Counted, ReaderInStep;
    InitialInv(onMatch);
    RunKeeps(onMatch, Initial(), actions);
    var s := After(onMatch, Initial(), actions);
    assert s.log[j].sampled <= s.log[j].to <= s.log[k].from <= s.log[k].sampled;
  }

  lemma UpperPart(a: nat, b: nat)
    requires a <= b < RANGE
    ensures a % RANGE <= b % RANGE && a / 0x1_0000 % DWORD <= b / 0x1_0000 % DWORD
  {
  }
}
