/** The decompression loop of Lzo1xDecompressor.Decompress (MiniLZO.cs lines 271-379) as a
    state machine over immutable values. Each program point the C# jumps to with `goto`
    (or reaches through its `goToFirstLiteralRun` / `goToMatchdone` flags) is a Pc, one
    Step runs from one program point to the next, and Run iterates Step to the end. Every
    C# exception (an index past the end of an array, or a `uint` cursor that has wrapped
    below zero and is then used as an index) is the single outcome Fault. */
module LzoDecoderSpec {
  import opened LzoFormat

  datatype Pc = Start | LoopTop | FirstLiteralRun | Match | MatchDone

  /** The decompressor's state: program point, the cursors `_inputPointer`,
      `_outputPointer` and `_mOutputPointer` (an int, negative where the `uint` has wrapped),
      the local `t`, and the output buffer. */
  datatype Machine = Machine(pc: Pc, ip: nat, op: nat, m: int, t: nat, out: seq<byte>)

  /** Done carries the return value of Decompress and the output buffer. */
  datatype Outcome = Done(code: int, out: seq<byte>) | Fault

  datatype Transition = Next(s: Machine) | Halt(o: Outcome)

  /** The return value at `eof_found` (line 378). */
  function EofCode(inputLength: nat, ip: nat): int
  {
    if ip == inputLength then 0 else if ip < inputLength then -8 else -4
  }

  // ---- the two copy primitives of CopyBytes (lines 400-416) ----

  /** A literal copy of n bytes stays inside both arrays (an empty copy touches neither). */
  predicate LiteralsFit(inputLength: nat, ip: nat, outputLength: nat, op: nat, n: nat)
  {
    n == 0 || (ip + n <= inputLength && op + n <= outputLength)
  }

  /** The output after the loop `_output[op + i] = _input[ip + i]` for i = 0 .. n-1. */
  function CopyIn(out: seq<byte>, op: nat, input: seq<byte>, ip: nat, n: nat): (r: seq<byte>)
    requires LiteralsFit(|input|, ip, |out|, op, n)
    ensures |r| == |out|
  {
    if n == 0 then out
    else CopyIn(out, op, input, ip, n - 1)[op + n - 1 := input[ip + n - 1]]
  }

  /** A copy inside the output buffer reads from m onwards and writes from op onwards, all
      inside the buffer (an empty copy touches nothing, even with m below zero). */
  predicate MatchFits(outputLength: nat, m: int, op: nat, n: nat)
  {
    n == 0 || (0 <= m && m + n <= outputLength && op + n <= outputLength)
  }

  /** The output after the loop `_output[op + i] = _output[m + i]` for i = 0 .. n-1, later
      bytes seeing earlier writes. */
  function CopyForward(out: seq<byte>, m: int, op: nat, n: nat): (r: seq<byte>)
    requires MatchFits(|out|, m, op, n)
    ensures |r| == |out|
  {
    if n == 0 then out
    else
      var o := CopyForward(out, m, op, n - 1);
      o[op + n - 1 := o[m + n - 1]]
  }

  function CopyLiterals(input: seq<byte>, s: Machine, n: nat): Option<Machine>
  {
    if LiteralsFit(|input|, s.ip, |s.out|, s.op, n) then
      Some(s.(ip := s.ip + n, op := s.op + n, out := CopyIn(s.out, s.op, input, s.ip, n)))
    else None
  }

  function CopyMatch(s: Machine, n: nat): Option<Machine>
  {
    if MatchFits(|s.out|, s.m, s.op, n) then
      Some(s.(op := s.op + n, m := s.m + n, out := CopyForward(s.out, s.m, s.op, n)))
    else None
  }

  // ---- one step from each program point ----

  function Rank(pc: Pc): nat
  {
    match pc
    case LoopTop => 0
    case FirstLiteralRun => 1
    case Match => 2
    case MatchDone => 3
    case Start => 4
  }

  /** Every step either consumes input or moves to a program point of lower rank. */
  function Measure(input: seq<byte>, s: Machine): nat
    requires s.ip <= |input|
  {
    (|input| - s.ip) * 8 + Rank(s.pc)
  }

  /** A step's contract: it stays inside the input, keeps the buffer length, and goes down
      in the measure; a halt returns 0 or -8 with a buffer of the same length. */
  predicate Progress(input: seq<byte>, s: Machine, r: Transition)
    requires s.ip <= |input|
  {
    (r.Next? ==> r.s.ip <= |input| && |r.s.out| == |s.out| && Measure(input, r.s) < Measure(input, s)) &&
    (r.Halt? && r.o.Done? ==> |r.o.out| == |s.out| && (r.o.code == 0 || r.o.code == -8))
  }

  /** Lines 277-283: a first byte above 17 is a literal run of byte - 17 bytes (at least
      one) with no header; a run of four or more continues at first_literal_run. Otherwise
      the loop top is reached with `t` not yet assigned, here 0. */
  function StepStart(input: seq<byte>, s: Machine): (r: Transition)
    requires s.pc == Start && s.ip <= |input|
    ensures Progress(input, s, r)
  {
    if s.ip >= |input| then Halt(Fault)
    else if input[s.ip] as int > 17 then
      var t := input[s.ip] as int - 17;
      match CopyLiterals(input, s.(ip := s.ip + 1, t := t), Max(1, t))
      case None => Halt(Fault)
      case Some(s1) => Next(s1.(pc := if t >= 4 then FirstLiteralRun else LoopTop))
    else Next(s.(pc := LoopTop, t := 0))
  }

  /** Lines 293-300: a tag of 16 or more is a match; otherwise a literal-run header and
      4 + t - 1 literals. */
  function StepLoopTop(input: seq<byte>, s: Machine): (r: Transition)
    requires s.pc == LoopTop && s.ip <= |input|
    ensures Progress(input, s, r)
  {
    if s.ip >= |input| then Halt(Fault)
    else if input[s.ip] as int >= 16 then Next(s.(ip := s.ip + 1, t := input[s.ip] as int, pc := Match))
    else
      match LiteralRunLength(input, s.ip)
      case None => Halt(Fault)
      case Some(h) =>
        match CopyLiterals(input, s.(ip := h.next, t := h.value), U32(4 + h.value - 1))
        case None => Halt(Fault)
        case Some(s1) => Next(s1.(pc := FirstLiteralRun))
  }

  /** Lines 302-311: after a literal run, a tag below 16 is a three-byte match at distance
      0x801 + (t >> 2) + (next << 2). */
  function StepFirstLiteralRun(input: seq<byte>, s: Machine): (r: Transition)
    requires s.pc == FirstLiteralRun && s.ip <= |input|
    ensures Progress(input, s, r)
  {
    if s.ip >= |input| then Halt(Fault)
    else
      var t := input[s.ip] as int;
      if t >= 16 then Next(s.(ip := s.ip + 1, t := t, pc := Match))
      else if s.ip + 1 >= |input| then Halt(Fault)
      else
        var m := s.op - (1 + 0x0800) - t / 4 - input[s.ip + 1] as int * 4;
        match CopyMatch(s.(ip := s.ip + 2, t := t, m := m), 3)
        case None => Halt(Fault)
        case Some(s1) => Next(s1.(m := s1.m - 1, pc := MatchDone))
  }

  /** Lines 359-366: how many bytes a 32..63 or 16..31 match copies. */
  function MatchCopy(s: Machine): (r: Transition)
  {
    var n := CopyCount(s.t, s.op - s.m);
    var s0 := if s.t >= 6 && s.op - s.m >= 4 then s.(t := n) else s;
    match CopyMatch(s0, n)
    case None => Halt(Fault)
    case Some(s1) => Next(s1.(pc := MatchDone))
  }

  /** Lines 332-339, after the length field: distance 1 + (ushort >> 2). */
  function MediumTail(input: seq<byte>, s: Machine): (r: Transition)
    requires s.ip <= |input|
  {
    if s.ip + 1 >= |input| then Halt(Fault)
    else
      var u := UShort(input[s.ip], input[s.ip + 1]);
      MatchCopy(s.(m := s.op - 1 - u / 4, ip := s.ip + 2))
  }

  /** Lines 340-350, after the length field: a zero back offset is the end marker,
      otherwise the distance is the back offset plus 0x4000. */
  function FarTail(input: seq<byte>, s: Machine): (r: Transition)
    requires s.ip <= |input|
  {
    if s.ip + 1 >= |input| then Halt(Fault)
    else
      var u := UShort(input[s.ip], input[s.ip + 1]);
      var m := s.op - FarBackOffset(s.t, u);
      if m == s.op then Halt(Done(EofCode(|input|, s.ip + 2), s.out))
      else MatchCopy(s.(m := m - 0x4000, ip := s.ip + 2))
  }

  /** Lines 319-357: the four match layouts, selected by the tag `t`. */
  function StepMatch(input: seq<byte>, s: Machine): (r: Transition)
    requires s.pc == Match && s.ip <= |input|
    ensures Progress(input, s, r)
  {
    if s.t >= 64 then
      if s.ip >= |input| then Halt(Fault)
      else
        var m := s.op - ShortDistance(s.t, input[s.ip]);
        var t := s.t / 32 - 1;
        match CopyMatch(s.(ip := s.ip + 1, m := m, t := t), Max(3, t + 2))
        case None => Halt(Fault)
        case Some(s1) => Next(s1.(pc := MatchDone))
    else if s.t >= 32 then
      match MatchLengthField(input, s.ip, s.t, 32)
      case None => Halt(Fault)
      case Some(f) => MediumTail(input, s.(ip := f.next, t := f.value))
    else if s.t >= 16 then
      match MatchLengthField(input, s.ip, s.t, 8)
      case None => Halt(Fault)
      case Some(f) => FarTail(input, s.(ip := f.next, t := f.value))
    else if s.ip >= |input| then Halt(Fault)
    else
      var m := s.op - 1 - s.t / 4 - input[s.ip] as int * 4;
      match CopyMatch(s.(ip := s.ip + 1, m := m), 2)
      case None => Halt(Fault)
      case Some(s1) => Next(s1.(m := s1.m - 1, pc := MatchDone))
  }

  /** Lines 368-375: the low two bits of the byte two back are the count of trailing
      literals; none goes back to the loop top, otherwise they are copied and the next
      byte is a match tag. */
  function StepMatchDone(input: seq<byte>, s: Machine): (r: Transition)
    requires s.pc == MatchDone && s.ip <= |input|
    ensures Progress(input, s, r)
  {
    if s.ip < 2 then Halt(Fault)
    else
      var t := input[s.ip - 2] as int % 4;
      if t == 0 then Next(s.(t := 0, pc := LoopTop))
      else
        match CopyLiterals(input, s.(t := t), t)
        case None => Halt(Fault)
        case Some(s1) =>
          if s1.ip >= |input| then Halt(Fault)
          else Next(s1.(ip := s1.ip + 1, t := input[s1.ip] as int, pc := Match))
  }

  function Step(input: seq<byte>, s: Machine): (r: Transition)
    requires s.ip <= |input|
    ensures Progress(input, s, r)
  {
    match s.pc
    case Start => StepStart(input, s)
    case LoopTop => StepLoopTop(input, s)
    case FirstLiteralRun => StepFirstLiteralRun(input, s)
    case Match => StepMatch(input, s)
    case MatchDone => StepMatchDone(input, s)
  }

  /** Decompress from state s to the end. A normal end returns 0 or -8 and a buffer of the
      declared length: the -4 of line 378 is never returned, because every read past the
      end of the input faults first. */
  function Run(input: seq<byte>, s: Machine): (o: Outcome)
    requires s.ip <= |input|
    ensures o.Done? ==> |o.out| == |s.out| && (o.code == 0 || o.code == -8)
    decreases Measure(input, s)
  {
    match Step(input, s)
    case Halt(o) => o
    case Next(s1) => Run(input, s1)
  }

  /** n zero bytes, what `new byte[n]` holds. */
  function Zeros(n: nat): (r: seq<byte>)
    ensures |r| == n
  {
    seq(n, _ => 0)
  }

  /** A fresh decompressor over an output buffer of n zero bytes. */
  function Initial(n: nat): Machine
  {
    Machine(Start, 0, 0, 0, 0, Zeros(n))
  }

  /** MiniLZO.Decompress before its exception handler: decompress into n bytes. */
  function Decompress(input: seq<byte>, n: nat): (o: Outcome)
    ensures o.Done? ==> |o.out| == n && o.code != -4
  {
    Run(input, Initial(n))
  }
}
