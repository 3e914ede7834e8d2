/** The monitoring agent: the sizes that `load_config` accepts, and what `handle_event` makes of
    any run of events and submissions under them. */
module Agents {
  import opened Bytes

  // ---------- configuration ----------

  /** One line of the configuration file; the numbers are what `atoi` makes of the value. */
  datatype Setting =
    | Api(value: seq<byte>)
    | Key(value: seq<byte>)
    | Name(value: seq<byte>)
    | Id(value: seq<byte>)
    | BufferSize(n: int)
    | BatchSize(n: int)
    | Other

  datatype Settings = Settings(
    api: seq<byte>, key: seq<byte>, name: seq<byte>, id: seq<byte>, bufferSize: int, batchSize: int)

  predicate IsInt(n: int) { INT_MIN <= n <= INT_MAX }

  predicate Line(s: Setting) { (s.BufferSize? ==> IsInt(s.n)) && (s.BatchSize? ==> IsInt(s.n)) }

  /** `int` arithmetic that wraps around. */
  function Wrap(n: int): (r: int)
    ensures IsInt(r) && (r - n) % 0x1_0000_0000 == 0 && (IsInt(n) ==> r == n)
  {
    (n - INT_MIN) % 0x1_0000_0000 + INT_MIN
  }

  /** What `strncpy` leaves of a value in a field of `size` bytes. */
  function Truncate(value: seq<byte>, size: nat): (r: seq<byte>)
    requires size > 0
    ensures |r| < size && r <= value && (|value| < size ==> r == value)
  {
    if |value| < size then value else value[..size - 1]
  }

  function AtLeast(n: int, least: int): int { if n < least then least else n }

  /** The settings after one more line. */
  function Set(c: Settings, line: Setting): Settings {
    match line
    case Api(value) => c.(api := Truncate(value, 256))
    case Key(value) => c.(key := Truncate(value, 128))
    case Name(value) => c.(name := Truncate(value, 64))
    case Id(value) => c.(id := Truncate(value, 64))
    case BufferSize(n) => c.(bufferSize := AtLeast(n, 32))
    case BatchSize(n) => c.(batchSize := AtLeast(n, 1))
    case Other => c
  }

  function SetAll(c: Settings, lines: seq<Setting>): Settings
    decreases |lines|
  {
    if lines == [] then c else Set(SetAll(c, lines[..|lines| - 1]), lines[|lines| - 1])
  }

  // ---------- what a file of lines means ----------

  predicate SameKind(a: Setting, b: Setting) {
    match a
    case Api(_) => b.Api?
    case Key(_) => b.Key?
    case Name(_) => b.Name?
    case Id(_) => b.Id?
    case BufferSize(_) => b.BufferSize?
    case BatchSize(_) => b.BatchSize?
    case Other => b.Other?
  }

  /** No line behind the `k`-th sets the same. */
  predicate Last(lines: seq<Setting>, k: nat) {
    k < |lines| && forall j :: k < j < |lines| ==> !SameKind(lines[k], lines[j])
  }

  /** The first `most` bytes. */
  function First(value: seq<byte>, most: nat): seq<byte> { if |value| <= most then value else value[..most] }

  /** The buffer is made large enough for two batches, as far as `int` arithmetic goes. */
  function Widen(c: Settings): Settings {
    if c.bufferSize < Wrap(c.batchSize * 2) then c.(bufferSize := Wrap(c.batchSize * 2)) else c
  }

  /** `validate_config` */
  predicate Valid(c: Settings) {
    c.api != [] && c.key != [] && c.name != [] && c.id != [] && c.bufferSize > 16 && c.batchSize > 1
  }

  /** The value of the last line of a kind is what stays, clamped or cut to the size of its field. */
  predicate Holds(c: Settings, line: Setting) {
    match line
    case Api(value) => c.api == First(value, 255)
    case Key(value) => c.key == First(value, 127)
    case Name(value) => c.name == First(value, 63)
    case Id(value) => c.id == First(value, 63)
    case BufferSize(n) => c.bufferSize == if n > 32 then n else 32
    case BatchSize(n) => c.batchSize == if n > 1 then n else 1
    case Other => true
  }

  /** The field that the line would set is the same in both. */
  predicate Untouched(c: Settings, d: Settings, line: Setting) {
    match line
    case Api(_) => c.api == d.api
    case Key(_) => c.key == d.key
    case Name(_) => c.name == d.name
    case Id(_) => c.id == d.id
    case BufferSize(_) => c.bufferSize == d.bufferSize
    case BatchSize(_) => c.batchSize == d.batchSize
    case Other => true
  }

  lemma SetHolds(c: Settings, line: Setting)
    ensures Holds(Set(c, line), line)
    ensures forall other :: !SameKind(other, line) ==> Untouched(c, Set(c, line), other)
  {
  }

  lemma {:induction false} SetAllUntouched(c: Settings, lines: seq<Setting>, other: Setting)
    requires forall j :: 0 <= j < |lines| ==> !SameKind(other, lines[j])
    ensures Untouched(c, SetAll(c, lines), other)
    decreases |lines|
  {
    if lines != [] {
      SetAllUntouched(c, lines[..|lines| - 1], other);
      SetHolds(SetAll(c, lines[..|lines| - 1]), lines[|lines| - 1]);
    }
  }

  lemma {:induction false} LastHolds(c: Settings, lines: seq<Setting>, k: nat)
    requires Last(lines, k)
    ensures Holds(SetAll(c, lines), lines[k])
    decreases |lines|
  {
    var n := |lines| - 1;
    SetHolds(SetAll(c, lines[..n]), lines[n]);
    if k < n {
      LastHolds(c, lines[..n], k);
    }
  }

  lemma LastLines(c: Settings, lines: seq<Setting>)
    ensures forall k :: 0 <= k < |lines| && Last(lines, k) && lines[k].Api? ==> SetAll(c, lines).api == First(lines[k].value, 255)
    ensures forall k :: 0 <= k < |lines| && Last(lines, k) && lines[k].Key? ==> SetAll(c, lines).key == First(lines[k].value, 127)
    ensures forall k :: 0 <= k < |lines| && Last(lines, k) && lines[k].Name? ==> SetAll(c, lines).name == First(lines[k].value, 63)
    ensures forall k :: 0 <= k < |lines| && Last(lines, k) && lines[k].Id? ==> SetAll(c, lines).id == First(lines[k].value, 63)
    ensures forall k :: 0 <= k < |lines| && Last(lines, k) && lines[k].BatchSize? ==>
              SetAll(c, lines).batchSize == if lines[k].n > 1 then lines[k].n else 1
    ensures forall k :: 0 <= k < |lines| && Last(lines, k) && lines[k].BufferSize? ==>
              SetAll(c, lines).bufferSize == if lines[k].n > 32 then lines[k].n else 32
    ensures (forall k :: 0 <= k < |lines| ==> !lines[k].Api?) ==> SetAll(c, lines).api == c.api
    ensures (forall k :: 0 <= k < |lines| ==> !lines[k].Key?) ==> SetAll(c, lines).key == c.key
    ensures (forall k :: 0 <= k < |lines| ==> !lines[k].Name?) ==> SetAll(c, lines).name == c.name
    ensures (forall k :: 0 <= k < |lines| ==> !lines[k].Id?) ==> SetAll(c, lines).id == c.id
    ensures (forall k :: 0 <= k < |lines| ==> !lines[k].BufferSize?) ==> SetAll(c, lines).bufferSize == c.bufferSize
    ensures (forall k :: 0 <= k < |lines| ==> !lines[k].BatchSize?) ==> SetAll(c, lines).batchSize == c.batchSize
  {
    hide SetAll, Last, SameKind, First;
    forall k | 0 <= k < |lines| && Last(lines, k) ensures Holds(SetAll(c, lines), lines[k]) {
      LastHolds(c, lines, k);
    }
    AbsentLines(c, lines);
  }

  lemma AbsentLines(c: Settings, lines: seq<Setting>)
    ensures (forall k :: 0 <= k < |lines| ==> !lines[k].Api?) ==> SetAll(c, lines).api == c.api
    ensures (forall k :: 0 <= k < |lines| ==> !lines[k].Key?) ==> SetAll(c, lines).key == c.key
    ensures (forall k :: 0 <= k < |lines| ==> !lines[k].Name?) ==> SetAll(c, lines).name == c.name
    ensures (forall k :: 0 <= k < |lines| ==> !lines[k].Id?) ==> SetAll(c, lines).id == c.id
    ensures (forall k :: 0 <= k < |lines| ==> !lines[k].BufferSize?) ==> SetAll(c, lines).bufferSize == c.bufferSize
    ensures (forall k :: 0 <= k < |lines| ==> !lines[k].BatchSize?) ==> SetAll(c, lines).batchSize == c.batchSize
  {
    hide SetAll;
    if forall k :: 0 <= k < |lines| ==> !lines[k].Api? {
      SetAllUntouched(c, lines, Api([]));
    }
    if forall k :: 0 <= k < |lines| ==> !lines[k].Key? {
      SetAllUntouched(c, lines, Key([]));
    }
    if forall k :: 0 <= k < |lines| ==> !lines[k].Name? {
      SetAllUntouched(c, lines, Name([]));
    }
    if forall k :: 0 <= k < |lines| ==> !lines[k].Id? {
      SetAllUntouched(c, lines, Id([]));
    }
    if forall k :: 0 <= k < |lines| ==> !lines[k].BufferSize? {
      SetAllUntouched(c, lines, BufferSize(0));
    }
    if forall k :: 0 <= k < |lines| ==> !lines[k].BatchSize? {
      SetAllUntouched(c, lines, BatchSize(0));
    }
  }

  predicate Ints(c: Settings) { IsInt(c.bufferSize) && IsInt(c.batchSize) }

  class Config {
    var api: seq<byte>
    var key: seq<byte>
    var name: seq<byte>
    var id: seq<byte>
    var bufferSize: int
    var batchSize: int

    function All(): Settings
      reads this
    {
      Settings(api, key, name, id, bufferSize, batchSize)
    }

    /** The zeroed global. */
    constructor ()
      ensures All() == Settings([], [], [], [], 0, 0)
    {
      api, key, name, id, bufferSize, batchSize := [], [], [], [], 0, 0;
    }

    /** `load_config` once the file has been opened and split into lines: the last line of a kind
        counts. `asked` is the buffer size before it is widened. */
    method LoadConfig(lines: seq<Setting>) returns (ok: bool, ghost asked: int)
      requires Ints(All()) && forall i :: 0 <= i < |lines| ==> Line(lines[i])
      modifies this
      ensures All() == Widen(SetAll(old(All()), lines)) && Ints(All())
      ensures ok <==> api != [] && key != [] && name != [] && id != [] && bufferSize > 16 && batchSize > 1
      ensures forall k :: 0 <= k < |lines| && Last(lines, k) && lines[k].Api? ==> api == First(lines[k].value, 255)
      ensures (forall k :: 0 <= k < |lines| ==> !lines[k].Api?) ==> api == old(api)
      ensures forall k :: 0 <= k < |lines| && Last(lines, k) && lines[k].Key? ==> key == First(lines[k].value, 127)
      ensures (forall k :: 0 <= k < |lines| ==> !lines[k].Key?) ==> key == old(key)
      ensures forall k :: 0 <= k < |lines| && Last(lines, k) && lines[k].Name? ==> name == First(lines[k].value, 63)
      ensures (forall k :: 0 <= k < |lines| ==> !lines[k].Name?) ==> name == old(name)
      ensures forall k :: 0 <= k < |lines| && Last(lines, k) && lines[k].Id? ==> id == First(lines[k].value, 63)
      ensures (forall k :: 0 <= k < |lines| ==> !lines[k].Id?) ==> id == old(id)
      ensures forall k :: 0 <= k < |lines| && Last(lines, k) && lines[k].BatchSize? ==>
                batchSize == if lines[k].n > 1 then lines[k].n else 1
      ensures (forall k :: 0 <= k < |lines| ==> !lines[k].BatchSize?) ==> batchSize == old(batchSize)
      ensures forall k :: 0 <= k < |lines| && Last(lines, k) && lines[k].BufferSize? ==>
                asked == if lines[k].n > 32 then lines[k].n else 32
      ensures (forall k :: 0 <= k < |lines| ==> !lines[k].BufferSize?) ==> asked == old(bufferSize)
      ensures 0 <= batchSize <= INT_MAX / 2 ==> bufferSize == if asked > 2 * batchSize then asked else 2 * batchSize
    {
      hide Last, First, Truncate, Wrap;
      var i := 0;
      while i < |lines|
        invariant 0 <= i <= |lines| && Ints(All())
        invariant All() == SetAll(old(All()), lines[..i])
      {
        assert lines[..i + 1][..i] == lines[..i];
        match lines[i] {
          case Api(value) => api := Truncate(value, 256);
          case Key(value) => key := Truncate(value, 128);
          case Name(value) => name := Truncate(value, 64);
          case Id(value) => id := Truncate(value, 64);
          case BufferSize(n) => bufferSize := if n < 32 then 32 else n;
          case BatchSize(n) => batchSize := if n < 1 then 1 else n;
          case Other =>
        }
        i := i + 1;
      }
      assert lines[..|lines|] == lines;
      LastLines(old(All()), lines);
      asked := bufferSize;
      if bufferSize < Wrap(batchSize * 2) {
        bufferSize := Wrap(batchSize * 2);
      }
      ok := api != [] && key != [] && name != [] && id != [] && bufferSize > 16 && batchSize > 1;
    }
  }

  /** The relation the batching needs. */
  predicate RoomForTwo(c: Settings) { c.bufferSize > 16 && 2 <= c.batchSize && 2 * c.batchSize <= c.bufferSize }

  /** An accepted configuration has room for two batches exactly when doubling the batch size does
      not overflow; otherwise the check is passed with a buffer smaller than that. */
  lemma AcceptedSizes(c: Settings)
    requires Ints(c) && Valid(Widen(c))
    ensures RoomForTwo(Widen(c)) <==> c.batchSize <= INT_MAX / 2
    ensures c.batchSize <= INT_MAX / 2 ==> Widen(c).bufferSize == AtLeast(c.bufferSize, 2 * c.batchSize)
  {
  }

  lemma SetAppend(c: Settings, lines: seq<Setting>, line: Setting)
    ensures SetAll(c, lines + [line]) == Set(SetAll(c, lines), line)
  {
    assert (lines + [line])[..|lines|] == lines;
  }

  /** The overflow is within reach of a configuration file. */
  lemma OverflowAccepted()
    ensures var c := SetAll(Settings([], [], [], [], 0, 0),
                            [Api([1])] + [Key([1])] + [Name([1])] + [Id([1])] + [BufferSize(32)] + [BatchSize(INT_MAX)]);
            Valid(Widen(c)) && !RoomForTwo(Widen(c))
  {
    var zero := Settings([], [], [], [], 0, 0);
    SetAppend(zero, [], Api([1]));
    SetAppend(zero, [Api([1])], Key([1]));
    SetAppend(zero, [Api([1])] + [Key([1])], Name([1]));
    SetAppend(zero, [Api([1])] + [Key([1])] + [Name([1])], Id([1]));
    SetAppend(zero, [Api([1])] + [Key([1])] + [Name([1])] + [Id([1])], BufferSize(32));
    SetAppend(zero, [Api([1])] + [Key([1])] + [Name([1])] + [Id([1])] + [BufferSize(32)], BatchSize(INT_MAX));
    assert [] + [Api([1])] == [Api([1])];
    assert Wrap(INT_MAX * 2) == -2;
  }

  // ---------- events ----------

  datatype Event = Event(data: seq<byte>)

  /** An event, and the answer that `submit_events` would give if it were called at this event. */
  datatype Input = Input(event: Event, accepted: bool)

  /** The events waiting, the batches accepted so far, all answers so far, and whether a store
      past the end of the buffer has been reached. */
  datatype State = State(waiting: seq<Event>, sent: seq<seq<Event>>, answers: seq<bool>, overrun: bool)

  const START := State([], [], [], false)

  /** `handle_event`. The test for a full buffer compares with `>`, so that an event that finds
      exactly `buffer_size` waiting is stored past the end. */
  function Step(c: Settings, s: State, input: Input): State {
    if s.overrun then s
    else if |s.waiting| == c.bufferSize then s.(overrun := true)
    else
      var waiting := if |s.waiting| > c.bufferSize then s.waiting else s.waiting + [input.event];
      if |waiting| < c.batchSize then s.(waiting := waiting)
      else if input.accepted then State([], s.sent + [waiting], s.answers + [true], false)
      else State(waiting, s.sent, s.answers + [false], false)
  }

  function Run(c: Settings, inputs: seq<Input>): State
    decreases |inputs|
  {
    if inputs == [] then START else Step(c, Run(c, inputs[..|inputs| - 1]), inputs[|inputs| - 1])
  }

  function Events(inputs: seq<Input>): seq<Event> { seq(|inputs|, i requires 0 <= i < |inputs| => inputs[i].event) }

  function Concat(batches: seq<seq<Event>>): seq<Event>
    decreases |batches|
  {
    if batches == [] then [] else Concat(batches[..|batches| - 1]) + batches[|batches| - 1]
  }

  /** How many of the last answers were failures. */
  function Failures(answers: seq<bool>): nat
    decreases |answers|
  {
    if answers == [] || answers[|answers| - 1] then 0 else 1 + Failures(answers[..|answers| - 1])
  }

  class Agent {
    const config: Settings
    const buffer: array<Event>
    var count: int
    /** A store past the end of the buffer has been reached: what follows is undefined. */
    var overrun: bool
    ghost var sent: seq<seq<Event>>
    ghost var answers: seq<bool>

    /** The buffer is allocated with `buffer_size` slots. */
    constructor (config: Settings)
      requires config.bufferSize >= 0
      ensures Consistent() && this.config == config && Now() == START && fresh(buffer)
    {
      this.config := config;
      buffer := new Event[config.bufferSize](_ => Event([]));
      count, overrun, sent, answers := 0, false, [], [];
    }

    ghost predicate Consistent()
      reads this
    {
      buffer.Length == config.bufferSize && 0 <= count <= buffer.Length
    }

    ghost function Now(): State
      reads this, buffer
      requires Consistent()
    {
      State(buffer[..count], sent, answers, overrun)
    }

    /** `handle_event`; `accepted` is the answer of `submit_events`, should it be called. */
    method HandleEvent(event: Event, accepted: bool)
      requires Consistent()
      modifies this, buffer
      ensures Consistent() && Now() == Step(config, old(Now()), Input(event, accepted))
    {
      if overrun {
        return;
      }
      if count == buffer.Length {
        overrun := true;
        return;
      }
      if count > config.bufferSize {
        // the event is dropped
      } else {
        buffer[count] := event;
        count := count + 1;
      }
      assert buffer[..count] == old(buffer[..count]) + [event] && buffer[..0] == [];
      if count >= config.batchSize {
        answers := answers + [accepted];
        if accepted {
          sent := sent + [buffer[..count]];
          count := 0;
        }
      }
    }

    /** The polling loop over all that the ring buffer delivers. */
    method HandleAll(inputs: seq<Input>)
      requires Consistent() && Now() == START
      modifies this, buffer
      ensures Consistent() && Now() == Run(config, inputs)
    {
      var i := 0;
      while i < |inputs|
        invariant 0 <= i <= |inputs| && Consistent() && Now() == Run(config, inputs[..i])
      {
        assert inputs[..i + 1][..i] == inputs[..i];
        HandleEvent(inputs[i].event, inputs[i].accepted);
        i := i + 1;
      }
      assert inputs[..|inputs|] == inputs;
    }
  }

  // ---------- what every run keeps ----------

  /** Until a store goes past the end, nothing is lost, doubled or reordered, and batches are
      within their bounds. The buffer holds fewer than a batch, or one event more for each
      failure. */
  predicate Kept(c: Settings, s: State, received: seq<Event>) {
    && |s.waiting| <= c.bufferSize
    && (!s.overrun ==> Concat(s.sent) + s.waiting == received)
    && (forall i :: 0 <= i < |s.sent| ==> c.batchSize <= |s.sent[i]| <= c.bufferSize)
    && (if Failures(s.answers) == 0 then |s.waiting| < c.batchSize
        else |s.waiting| == c.batchSize - 1 + Failures(s.answers))
  }

  lemma StepKeeps(c: Settings, s: State, received: seq<Event>, input: Input)
    requires 2 <= c.batchSize <= c.bufferSize && Kept(c, s, received)
    ensures Kept(c, Step(c, s, input), received + [input.event])
  {
    if !s.overrun && |s.waiting| < c.bufferSize {
      var waiting := s.waiting + [input.event];
      Regroup(Concat(s.sent), s.waiting, [input.event]);
      assert (s.sent + [waiting])[..|s.sent|] == s.sent;
      assert (s.answers + [true])[..|s.answers|] == s.answers && (s.answers + [false])[..|s.answers|] == s.answers;
      assert Concat(s.sent + [waiting]) + [] == Concat(s.sent) + waiting;
    }
  }

  lemma {:induction false} RunKeeps(c: Settings, inputs: seq<Input>)
    requires 2 <= c.batchSize <= c.bufferSize
    ensures Kept(c, Run(c, inputs), Events(inputs))
    decreases |inputs|
  {
    if inputs != [] {
      var n := |inputs| - 1;
      RunKeeps(c, inputs[..n]);
      StepKeeps(c, Run(c, inputs[..n]), Events(inputs[..n]), inputs[n]);
      assert Events(inputs) == Events(inputs[..n]) + [inputs[n].event];
    }
  }

  /** After the first `k` inputs more submissions in a row have failed than the buffer has slots
      beyond one batch. */
  predicate Exceeds(c: Settings, inputs: seq<Input>, k: nat) {
    k < |inputs| && Failures(Run(c, inputs[..k]).answers) > c.bufferSize - c.batchSize
  }

  /** A run goes past the end exactly if that happens before some event. */
  lemma {:induction false} OverrunExactly(c: Settings, inputs: seq<Input>)
    requires 2 <= c.batchSize <= c.bufferSize
    ensures Run(c, inputs).overrun <==> exists k: nat :: Exceeds(c, inputs, k)
    decreases |inputs|
  {
    if inputs != [] {
      var n := |inputs| - 1;
      OverrunExactly(c, inputs[..n]);
      OverrunStep(c, inputs);
      ExceedsEarlier(c, inputs);
    }
  }

  lemma ExceedsEarlier(c: Settings, inputs: seq<Input>)
    requires inputs != []
    ensures var n := |inputs| - 1;
            (exists k: nat :: Exceeds(c, inputs, k)) <==> (exists k: nat :: Exceeds(c, inputs[..n], k)) || Exceeds(c, inputs, n)
  {
    var n := |inputs| - 1;
    var before := inputs[..n];
    forall k: nat | k < n ensures Exceeds(c, before, k) <==> Exceeds(c, inputs, k) {
      assert before[..k] == inputs[..k];
    }
    assert forall k: nat :: k >= n ==> !Exceeds(c, before, k);
    assert forall k: nat :: k > n ==> !Exceeds(c, inputs, k);
    hide Run, Failures, Exceeds;
    if k: nat :| Exceeds(c, inputs, k) {
      assert k < n ==> Exceeds(c, before, k);
    }
    if k: nat :| Exceeds(c, before, k) {
      assert Exceeds(c, inputs, k);
    }
  }

  lemma StepOverruns(c: Settings, s: State, received: seq<Event>, input: Input)
    requires 2 <= c.batchSize <= c.bufferSize && Kept(c, s, received)
    ensures Step(c, s, input).overrun <==> s.overrun || Failures(s.answers) > c.bufferSize - c.batchSize
  {
    hide Concat, Failures;
  }

  lemma OverrunStep(c: Settings, inputs: seq<Input>)
    requires 2 <= c.batchSize <= c.bufferSize && inputs != []
    ensures var n := |inputs| - 1;
            Run(c, inputs).overrun <==> Run(c, inputs[..n]).overrun || Exceeds(c, inputs, n)
  {
    hide Step, Kept, Failures;
    var n := |inputs| - 1;
    RunKeeps(c, inputs[..n]);
    StepOverruns(c, Run(c, inputs[..n]), Events(inputs[..n]), inputs[n]);
  }

  /** An ordinary configuration reaches the overrun too: when every submission fails, nothing is
      sent, and the event that comes after `buffer_size` others is stored past the end. */
  lemma {:induction false} RefusedThroughout(c: Settings, inputs: seq<Input>)
    requires 2 <= c.batchSize <= c.bufferSize && forall i :: 0 <= i < |inputs| ==> !inputs[i].accepted
    ensures var s := Run(c, inputs);
            && (s.overrun <==> |inputs| > c.bufferSize) && s.sent == []
            && s.waiting == Events(inputs)[..if s.overrun then c.bufferSize else |inputs|]
    decreases |inputs|
  {
    if inputs != [] {
      var n := |inputs| - 1;
      RefusedThroughout(c, inputs[..n]);
      assert Events(inputs) == Events(inputs[..n]) + [inputs[n].event];
    }
  }

  /** The `i`-th batch of exactly `b` events is `batch`. */
  predicate IsBatch(batch: seq<Event>, events: seq<Event>, i: nat, b: nat) {
    0 <= i * b && i * b + b <= |events| && batch == events[i * b..i * b + b]
  }

  /** Batches of exactly `b` events each, one behind the other. */
  predicate Batches(sent: seq<seq<Event>>, events: seq<Event>, b: nat) {
    forall i :: 0 <= i < |sent| ==> IsBatch(sent[i], events, i, b)
  }

  /** When every submission is accepted, the events go out in consecutive batches of exactly
      `batch_size`, and only what does not fill a batch yet is waiting. */
  lemma AcceptedThroughout(c: Settings, inputs: seq<Input>)
    requires 2 <= c.batchSize <= c.bufferSize && forall i :: 0 <= i < |inputs| ==> inputs[i].accepted
    ensures var s := Run(c, inputs);
            && !s.overrun && |s.sent| == |inputs| / c.batchSize && Batches(s.sent, Events(inputs), c.batchSize)
            && s.waiting == Events(inputs)[|inputs| - |inputs| % c.batchSize..]
  {
    BatchesSent(c, inputs);
    var s := Run(c, inputs);
    BatchesLeft(|s.sent|, c.batchSize, |s.waiting|);
  }

  lemma {:induction false} BatchesSent(c: Settings, inputs: seq<Input>)
    requires 2 <= c.batchSize <= c.bufferSize && forall i :: 0 <= i < |inputs| ==> inputs[i].accepted
    ensures var s := Run(c, inputs);
            && !s.overrun && Batches(s.sent, Events(inputs), c.batchSize) && |s.waiting| < c.batchSize
            && |s.sent| * c.batchSize + |s.waiting| == |inputs| && s.waiting == Events(inputs)[|s.sent| * c.batchSize..]
    decreases |inputs|
  {
    hide Batches;
    if inputs == [] {
      NoBatches(c.batchSize);
    } else {
      var n, b := |inputs| - 1, c.batchSize;
      var before := Run(c, inputs[..n]);
      BatchesSent(c, inputs[..n]);
      assert Events(inputs) == Events(inputs[..n]) + [inputs[n].event];
      BatchesGrow(before.sent, before.waiting, Events(inputs[..n]), inputs[n].event, b);
    }
  }

  lemma NoBatches(b: nat)
    ensures Batches([], [], b) && 0 * b == 0
  {
  }

  lemma BatchStays(batch: seq<Event>, events: seq<Event>, e: Event, i: nat, b: nat)
    requires IsBatch(batch, events, i, b)
    ensures IsBatch(batch, events + [e], i, b)
  {
    var start := i * b;
    assert (events + [e])[start..start + b] == events[start..start + b];
  }

  /** One more event: it waits, or it fills a batch. */
  lemma BatchesGrow(sent: seq<seq<Event>>, waiting: seq<Event>, events: seq<Event>, e: Event, b: nat)
    requires Batches(sent, events, b) && |sent| * b + |waiting| == |events| && waiting == events[|sent| * b..]
    ensures Batches(sent, events + [e], b) && (events + [e])[|sent| * b..] == waiting + [e]
    ensures |waiting| + 1 == b ==>
              && Batches(sent + [waiting + [e]], events + [e], b)
              && |sent + [waiting + [e]]| * b == |events| + 1 && (events + [e])[|events| + 1..] == []
  {
    hide IsBatch;
    forall i | 0 <= i < |sent| ensures IsBatch(sent[i], events + [e], i, b) {
      BatchStays(sent[i], events, e, i, b);
    }
    if |waiting| + 1 == b {
      BatchFilled(|sent|, waiting, events, e, b);
    }
  }

  lemma BatchFilled(n: nat, waiting: seq<Event>, events: seq<Event>, e: Event, b: nat)
    requires n * b + |waiting| == |events| && waiting == events[n * b..] && |waiting| + 1 == b
    ensures IsBatch(waiting + [e], events + [e], n, b) && (n + 1) * b == |events| + 1
  {
    var start := n * b;
    assert (events + [e])[start..start + b] == waiting + [e];
  }

  lemma {:induction false} BatchInside(i: nat, n: nat, b: nat)
    requires i <= n
    ensures 0 <= i * b <= n * b && (i < n ==> i * b + b <= n * b)
    decreases n - i
  {
    if i < n {
      BatchInside(i, n - 1, b);
      assert n * b == (n - 1) * b + b;
    }
  }

  lemma BatchesLeft(n: nat, b: nat, rest: nat)
    requires rest < b
    ensures (n * b + rest) / b == n && (n * b + rest) % b == rest
  {
    var x := n * b + rest;
    var q := x / b;
    assert x == q * b + x % b;
    if q < n {
      BatchInside(q, n, b);
    } else {
      BatchInside(n, q, b);
    }
  }

  /** An accepted answer leaves less than a batch waiting. */
  lemma AcceptedEmpties(c: Settings, inputs: seq<Input>)
    requires 2 <= c.batchSize <= c.bufferSize
    requires inputs != [] && inputs[|inputs| - 1].accepted && !Run(c, inputs).overrun
    ensures |Run(c, inputs).waiting| < c.batchSize
  {
    RunKeeps(c, inputs[..|inputs| - 1]);
  }

  /** The `n` inputs from the `i`-th on would all be refused. */
  predicate Refused(inputs: seq<Input>, i: nat, n: nat) {
    i + n <= |inputs| && forall k :: i <= k < i + n ==> !inputs[k].accepted
  }

  predicate RefusedInARow(inputs: seq<Input>, n: nat) {
    exists i :: 0 <= i <= |inputs| && Refused(inputs, i, n)
  }

  lemma StepFailures(c: Settings, s: State, received: seq<Event>, input: Input)
    requires 2 <= c.batchSize <= c.bufferSize && Kept(c, s, received) && !Step(c, s, input).overrun
    ensures var n := Failures(Step(c, s, input).answers); n == 0 || (n == Failures(s.answers) + 1 && !input.accepted)
  {
    hide Concat;
    assert (s.answers + [true])[..|s.answers|] == s.answers && (s.answers + [false])[..|s.answers|] == s.answers;
  }

  /** Failures in a row are refusals of the last inputs. */
  lemma {:induction false} FailuresRefused(c: Settings, inputs: seq<Input>)
    requires 2 <= c.batchSize <= c.bufferSize && !Run(c, inputs).overrun
    ensures var n := Failures(Run(c, inputs).answers); n <= |inputs| && Refused(inputs, |inputs| - n, n)
    decreases |inputs|
  {
    hide Failures, Kept;
    if inputs == [] {
      NoFailures();
    } else {
      var n := |inputs| - 1;
      RunKeeps(c, inputs[..n]);
      StepFailures(c, Run(c, inputs[..n]), Events(inputs[..n]), inputs[n]);
      FailuresRefused(c, inputs[..n]);
    }
  }

  lemma NoFailures()
    ensures Failures([]) == 0
  {
  }

  lemma ExceedsRefused(c: Settings, inputs: seq<Input>, k: nat)
    requires 2 <= c.batchSize <= c.bufferSize
    ensures Exceeds(c, inputs, k) ==> RefusedInARow(inputs, c.bufferSize - c.batchSize + 1)
  {
    if Exceeds(c, inputs, k) {
      var i;
      if Run(c, inputs[..k]).overrun {
        i := OverrunRefused(c, inputs[..k]);
      } else {
        FailuresRefused(c, inputs[..k]);
        i := k - (c.bufferSize - c.batchSize + 1);
      }
      assert Refused(inputs, i, c.bufferSize - c.batchSize + 1);
    }
  }

  /** Nothing goes past the end unless `buffer_size - batch_size + 1` inputs in a row are refused
      and another event follows. */
  lemma {:induction false} OverrunRefused(c: Settings, inputs: seq<Input>) returns (i: nat)
    requires 2 <= c.batchSize <= c.bufferSize && Run(c, inputs).overrun
    ensures var n := c.bufferSize - c.batchSize + 1; i + n < |inputs| && Refused(inputs, i, n)
    decreases |inputs|
  {
    hide Failures, Step;
    var before := inputs[..|inputs| - 1];
    OverrunStep(c, inputs);
    if Run(c, before).overrun {
      i := OverrunRefused(c, before);
    } else {
      FailuresRefused(c, before);
      i := |before| - (c.bufferSize - c.batchSize + 1);
    }
  }

  /** And `buffer_size` refusals in a row with another event behind them are enough. */
  lemma {:induction false} RefusedOverruns(c: Settings, inputs: seq<Input>, i: nat)
    requires 2 <= c.batchSize <= c.bufferSize && i + c.bufferSize < |inputs| && Refused(inputs, i, c.bufferSize)
    ensures Run(c, inputs).overrun
    decreases |inputs|
  {
    var n := |inputs| - 1;
    if i + c.bufferSize < n {
      RefusedOverruns(c, inputs[..n], i);
    } else {
      RefusedFill(c, inputs[..n], i, c.bufferSize);
    }
  }

  lemma {:induction false} RefusedFill(c: Settings, inputs: seq<Input>, i: nat, n: nat)
    requires 2 <= c.batchSize <= c.bufferSize && i + n == |inputs| && Refused(inputs, i, n)
    ensures Run(c, inputs).overrun || |Run(c, inputs).waiting| >= n
    ensures Run(c, inputs).overrun || |Run(c, inputs).waiting| <= c.bufferSize
    decreases n
  {
    RunKeeps(c, inputs);
    if n > 0 {
      RefusedFill(c, inputs[..|inputs| - 1], i, n - 1);
    }
  }

  /** A batch larger than the buffer, which the overflow lets through, is never submitted: the
      buffer fills up and is overrun. */
  lemma {:induction false} NeverSubmits(c: Settings, inputs: seq<Input>)
    requires 0 <= c.bufferSize < c.batchSize
    ensures var s := Run(c, inputs);
            && s.sent == [] && |s.waiting| == (if s.overrun then c.bufferSize else |inputs|)
            && (s.overrun <==> |inputs| > c.bufferSize)
    decreases |inputs|
  {
    if inputs != [] {
      NeverSubmits(c, inputs[..|inputs| - 1]);
    }
  }

  /** From an accepted configuration whose batch size can be doubled: as long as no more than
      `buffer_size - batch_size` submissions fail in a row, every event is either waiting or has been
      sent in one batch, in the order received. */
  lemma EventsConserved(c: Settings, inputs: seq<Input>)
    requires Ints(c) && Valid(Widen(c)) && c.batchSize <= INT_MAX / 2
    requires forall k: nat :: k < |inputs| ==> !Exceeds(Widen(c), inputs, k)
    ensures var s := Run(Widen(c), inputs);
            && !s.overrun && Concat(s.sent) + s.waiting == Events(inputs)
            && (forall i :: 0 <= i < |s.sent| ==> Widen(c).batchSize <= |s.sent[i]| <= Widen(c).bufferSize)
  {
    AcceptedSizes(c);
    OverrunExactly(Widen(c), inputs);
    RunKeeps(Widen(c), inputs);
  }

  /** The same by what would be answered: `buffer_size - batch_size + 1` refusals in a row are needed
      for an event to get lost. */
  lemma NothingLost(c: Settings, inputs: seq<Input>)
    requires Ints(c) && Valid(Widen(c)) && c.batchSize <= INT_MAX / 2
    requires !RefusedInARow(inputs, Widen(c).bufferSize - Widen(c).batchSize + 1)
    ensures var s := Run(Widen(c), inputs);
            && !s.overrun && Concat(s.sent) + s.waiting == Events(inputs)
            && (forall i :: 0 <= i < |s.sent| ==> Widen(c).batchSize <= |s.sent[i]| <= Widen(c).bufferSize)
  {
    AcceptedSizes(c);
    forall k: nat | k < |inputs| ensures !Exceeds(Widen(c), inputs, k) {
      ExceedsRefused(Widen(c), inputs, k);
    }
    EventsConserved(c, inputs);
  }
}
