/** Lzo1xDecompressor (MiniLZO.cs lines 252-422): the decompressor as a class over its two
    arrays, with the three cursors as fields. Each program point of Decompress is a method
    that runs to the next program point and is proved to do exactly what Step does there;
    Decompress loops over them and is proved to return what Run returns. */
module Lzo1xDecompression {
  import opened LzoFormat
  import opened LzoDecoderSpec

  /** How Decompress ends: with its return value, or with an exception. */
  datatype Result = Returned(code: int) | Threw

  /** Where a program point's code leaves the decompressor: at the next program point with
      the local `t`, or at the end. */
  datatype StepResult = Continue(pc: Pc, t: nat) | Stop(result: Result)

  /** Lines 345-346 in FarTail's terms: a zero back offset ends the stream. */
  lemma FarTailEnds(input: seq<byte>, s: Machine, back: nat)
    requires s.ip + 1 < |input| && back == FarBackOffset(s.t, UShort(input[s.ip], input[s.ip + 1])) && back == 0
    ensures FarTail(input, s) == Halt(Done(EofCode(|input|, s.ip + 2), s.out))
  {
  }

  /** Lines 347-349 in FarTail's terms: any other back offset is a copy from 0x4000 further. */
  lemma FarTailCopyFrom(input: seq<byte>, s: Machine, back: nat)
    requires s.ip + 1 < |input| && back == FarBackOffset(s.t, UShort(input[s.ip], input[s.ip + 1])) && back != 0
    ensures FarTail(input, s) == MatchCopy(s.(m := s.op - back - 0x4000, ip := s.ip + 2))
  {
  }

  class Decompressor {
    var inputPointer: nat
    var outputPointer: nat
    /** `_mOutputPointer`; a value below zero stands for a `uint` that has wrapped. */
    var mOutputPointer: int
    const input: array<byte>
    const output: array<byte>

    constructor (input: array<byte>, output: array<byte>)
      ensures this.input == input && this.output == output
      ensures inputPointer == 0 && outputPointer == 0 && mOutputPointer == 0
    {
      this.input := input;
      this.output := output;
      inputPointer := 0;
      outputPointer := 0;
      mOutputPointer := 0;
    }

    /** The decompressor as a Machine at program point pc with local t. */
    function State(pc: Pc, t: nat): Machine
      reads this, output
    {
      Machine(pc, inputPointer, outputPointer, mOutputPointer, t, output[..])
    }

    /** The code of a program point ended as the transition tr says. */
    ghost predicate Took(tr: Transition, r: StepResult)
      reads this, output
    {
      match r
      case Continue(pc, t) => tr == Next(State(pc, t))
      case Stop(Returned(code)) => tr == Halt(Done(code, output[..]))
      case Stop(Threw) => tr == Halt(Fault)
    }

    /** ReadLength (lines 381-398): 255 for every zero byte, then the first non-zero byte,
        summed as a `uint`. ok is false where the input ends first and the C# throws. */
    method ReadLength() returns (ok: bool, length: nat)
      modifies this
      ensures var r := LzoFormat.ReadLength(input[..], old(inputPointer), 0);
        ok == r.Some? && (ok ==> length == r.value.value && inputPointer == r.value.next)
      ensures outputPointer == old(outputPointer) && mOutputPointer == old(mOutputPointer)
    {
      length := 0;
      while true
        invariant LzoFormat.ReadLength(input[..], old(inputPointer), 0) == LzoFormat.ReadLength(input[..], inputPointer, length)
        invariant outputPointer == old(outputPointer) && mOutputPointer == old(mOutputPointer)
        decreases input.Length - inputPointer
      {
        if inputPointer >= input.Length {
          return false, 0;
        }
        var inputByte := input[inputPointer];
        inputPointer := inputPointer + 1;
        if inputByte == 0 {
          length := U32(length + 255);
        } else {
          length := U32(length + inputByte as int);
          return true, length;
        }
      }
    }

    /** CopyBytes (lines 400-416) from the input: n bytes from inputPointer to outputPointer,
        both cursors moving on by n. ok is false where an index leaves an array. */
    method CopyLiteralBytes(n: nat) returns (ok: bool)
      requires input != output
      modifies this, output
      ensures ok == LiteralsFit(input.Length, old(inputPointer), output.Length, old(outputPointer), n)
      ensures ok ==> output[..] == CopyIn(old(output[..]), old(outputPointer), input[..], old(inputPointer), n)
      ensures ok ==> inputPointer == old(inputPointer) + n && outputPointer == old(outputPointer) + n
      ensures mOutputPointer == old(mOutputPointer)
    {
      var i: nat := 0;
      while i < n
        invariant i <= n
        invariant inputPointer == old(inputPointer) && outputPointer == old(outputPointer)
        invariant mOutputPointer == old(mOutputPointer)
        invariant LiteralsFit(input.Length, inputPointer, output.Length, outputPointer, i)
        invariant output[..] == CopyIn(old(output[..]), outputPointer, input[..], inputPointer, i)
      {
        if inputPointer + i >= input.Length || outputPointer + i >= output.Length {
          return false;
        }
        output[outputPointer + i] := input[inputPointer + i];
        i := i + 1;
      }
      outputPointer := outputPointer + n;
      inputPointer := inputPointer + n;
      return true;
    }

    /** CopyBytes (lines 400-416) from the output itself: n bytes from mOutputPointer to
        outputPointer, one at a time, so an overlapping source repeats what this copy has
        just written; both cursors move on by n. ok is false where an index leaves the
        array (or the source cursor has wrapped below zero). */
    method CopyMatchBytes(n: nat) returns (ok: bool)
      modifies this, output
      ensures ok == MatchFits(output.Length, old(mOutputPointer), old(outputPointer), n)
      ensures ok ==> output[..] == CopyForward(old(output[..]), old(mOutputPointer), old(outputPointer), n)
      ensures ok ==> outputPointer == old(outputPointer) + n && mOutputPointer == old(mOutputPointer) + n
      ensures inputPointer == old(inputPointer)
    {
      var i: nat := 0;
      while i < n
        invariant i <= n
        invariant inputPointer == old(inputPointer) && outputPointer == old(outputPointer)
        invariant mOutputPointer == old(mOutputPointer)
        invariant MatchFits(output.Length, mOutputPointer, outputPointer, i)
        invariant output[..] == CopyForward(old(output[..]), mOutputPointer, outputPointer, i)
      {
        if mOutputPointer + i < 0 || mOutputPointer + i >= output.Length || outputPointer + i >= output.Length {
          return false;
        }
        output[outputPointer + i] := output[mOutputPointer + i];
        i := i + 1;
      }
      outputPointer := outputPointer + n;
      mOutputPointer := mOutputPointer + n;
      return true;
    }

    /** ReadUshortFromInput (lines 418-421): the two bytes at inputPointer, low byte first. */
    function ReadUshortFromInput(): (r: nat)
      reads this, input
      requires inputPointer + 1 < input.Length
      ensures r < 0x10000
      ensures r % 256 == input[inputPointer] as int && r / 256 == input[inputPointer + 1] as int
    {
      UShort(input[inputPointer], input[inputPointer + 1])
    }

    /** Lines 277-283. */
    method AtStart() returns (r: StepResult)
      requires input != output && inputPointer <= input.Length
      modifies this, output
      ensures Took(Step(input[..], old(State(Start, 0))), r)
    {
      if inputPointer >= input.Length {
        return Stop(Threw);
      }
      if input[inputPointer] > 17 {
        var t := input[inputPointer] as int - 17;
        inputPointer := inputPointer + 1;
        var ok := CopyLiteralBytes(Max(1, t));
        if !ok {
          return Stop(Threw);
        }
        return Continue(if t >= 4 then FirstLiteralRun else LoopTop, t);
      }
      return Continue(LoopTop, 0);
    }

    /** Lines 294-299: a literal-run header, the byte itself or, when it is zero, 15 plus a
        long length. */
    method ReadLiteralRunHeader() returns (ok: bool, t: nat)
      requires inputPointer < input.Length && input[inputPointer] < 16
      modifies this
      ensures var h := LiteralRunLength(input[..], old(inputPointer));
        ok == h.Some? && (ok ==> t == h.value.value && inputPointer == h.value.next)
      ensures outputPointer == old(outputPointer) && mOutputPointer == old(mOutputPointer)
    {
      t := input[inputPointer] as int;
      inputPointer := inputPointer + 1;
      if t == 0 {
        var length;
        ok, length := ReadLength();
        if !ok {
          return false, 0;
        }
        t := U32(t + 15 + length);
      }
      return true, t;
    }

    /** Lines 293-300: a match tag, or a literal-run header and its literals. */
    method AtLoopTop(t0: nat) returns (r: StepResult)
      requires input != output && inputPointer <= input.Length
      modifies this, output
      ensures Took(Step(input[..], old(State(LoopTop, t0))), r)
    {
      if inputPointer >= input.Length {
        return Stop(Threw);
      }
      if input[inputPointer] >= 16 {
        var t := input[inputPointer] as int;
        inputPointer := inputPointer + 1;
        return Continue(Match, t);
      }
      var ok, t := ReadLiteralRunHeader();
      if !ok {
        return Stop(Threw);
      }
      ok := CopyLiteralBytes(U32(4 + t - 1));
      if !ok {
        return Stop(Threw);
      }
      return Continue(FirstLiteralRun, t);
    }

    /** Lines 302-311: a match tag, or a three-byte match right after a literal run. */
    method AtFirstLiteralRun(t0: nat) returns (r: StepResult)
      requires input != output && inputPointer <= input.Length
      modifies this, output
      ensures Took(Step(input[..], old(State(FirstLiteralRun, t0))), r)
    {
      if inputPointer >= input.Length {
        return Stop(Threw);
      }
      var t := input[inputPointer] as int;
      inputPointer := inputPointer + 1;
      if t >= 16 {
        return Continue(Match, t);
      }
      if inputPointer >= input.Length {
        return Stop(Threw);
      }
      var next := input[inputPointer] as int;
      inputPointer := inputPointer + 1;
      mOutputPointer := outputPointer - (1 + 0x0800) - t / 4 - next * 4;
      var ok := CopyMatchBytes(3);
      if !ok {
        return Stop(Threw);
      }
      // the third copy does not advance the match cursor
      mOutputPointer := mOutputPointer - 1;
      return Continue(MatchDone, t);
    }

    /** Lines 359-366: how many bytes a 32..63 or 16..31 match copies. */
    method CopyCounted(t0: nat) returns (r: StepResult)
      modifies this, output
      ensures Took(MatchCopy(old(State(Match, t0))), r)
    {
      var t := t0;
      var ok;
      if t >= 2 * 4 - (3 - 1) && outputPointer - mOutputPointer >= 4 {
        t := U32(t + 4 - (3 - 1));
        ok := CopyMatchBytes(t);
      } else {
        ok := CopyMatchBytes(Max(3, U32(t + 2)));
      }
      if !ok {
        return Stop(Threw);
      }
      return Continue(MatchDone, t);
    }

    /** The length field of a 32..63 or 16..31 tag (lines 331-332, 342-343): the tag's low
        bits, or when they are zero mask - 1 plus a long length. */
    method ReadLengthField(tag: nat, mask: nat) returns (ok: bool, t: nat)
      requires mask == 32 || mask == 8
      requires inputPointer <= input.Length
      modifies this
      ensures var f := MatchLengthField(input[..], old(inputPointer), tag, mask);
        ok == f.Some? && (ok ==> t == f.value.value && inputPointer == f.value.next)
      ensures outputPointer == old(outputPointer) && mOutputPointer == old(mOutputPointer)
    {
      t := tag % mask;
      if t == 0 {
        var length;
        ok, length := ReadLength();
        if !ok {
          return false, 0;
        }
        t := U32(t + (mask - 1) + length);
      }
      return true, t;
    }

    /** Lines 333-334: a 32..63 match's two offset bytes, then its copy. */
    method AtMediumTail(t: nat) returns (r: StepResult)
      requires input != output && inputPointer <= input.Length
      modifies this, output
      ensures Took(MediumTail(input[..], old(State(Match, t))), r)
    {
      if inputPointer + 1 >= input.Length {
        return Stop(Threw);
      }
      mOutputPointer := outputPointer - 1 - ReadUshortFromInput() / 4;
      inputPointer := inputPointer + 2;
      r := CopyCounted(t);
    }

    /** Lines 344-348: a 16..31 match's two offset bytes; a zero back offset ends the stream,
        otherwise the copy. */
    method AtFarTail(t: nat) returns (r: StepResult)
      requires input != output && inputPointer <= input.Length
      modifies this, output
      ensures Took(FarTail(input[..], old(State(Match, t))), r)
    {
      if inputPointer + 1 >= input.Length {
        return Stop(Threw);
      }
      ghost var s0 := State(Match, t);
      var back := (t / 8) % 2 * 8 * 2048 + ReadUshortFromInput() / 4;
      assert back == FarBackOffset(s0.t, UShort(input[s0.ip], input[s0.ip + 1]));
      mOutputPointer := outputPointer - back;
      inputPointer := inputPointer + 2;
      if mOutputPointer == outputPointer {
        FarTailEnds(input[..], s0, back);
        return Stop(Returned(EofCode(input.Length, inputPointer)));
      }
      mOutputPointer := mOutputPointer - 0x4000;
      FarTailCopyFrom(input[..], s0, back);
      assert State(Match, t) == s0.(m := s0.op - back - 0x4000, ip := s0.ip + 2);
      r := CopyCounted(t);
    }

    /** Lines 321-329: a match tag of 64 or more. */
    method AtShortMatch(t0: nat) returns (r: StepResult)
      requires input != output && 64 <= t0 && inputPointer <= input.Length
      modifies this, output
      ensures Took(StepMatch(input[..], old(State(Match, t0))), r)
    {
      if inputPointer >= input.Length {
        return Stop(Threw);
      }
      mOutputPointer := outputPointer - 1;
      mOutputPointer := mOutputPointer - (t0 / 4) % 8;
      mOutputPointer := mOutputPointer - input[inputPointer] as int * 8;
      inputPointer := inputPointer + 1;
      var t := t0 / 32 - 1;
      var ok := CopyMatchBytes(Max(3, t + 2));
      if !ok {
        return Stop(Threw);
      }
      return Continue(MatchDone, t);
    }

    /** Lines 351-356: a match tag below 16, a two-byte copy. */
    method AtNearMatch(t: nat) returns (r: StepResult)
      requires input != output && t < 16 && inputPointer <= input.Length
      modifies this, output
      ensures Took(StepMatch(input[..], old(State(Match, t))), r)
    {
      if inputPointer >= input.Length {
        return Stop(Threw);
      }
      mOutputPointer := outputPointer - 1 - t / 4 - input[inputPointer] as int * 4;
      inputPointer := inputPointer + 1;
      var ok := CopyMatchBytes(2);
      if !ok {
        return Stop(Threw);
      }
      // the second copy does not advance the match cursor
      mOutputPointer := mOutputPointer - 1;
      return Continue(MatchDone, t);
    }

    /** Lines 319-357: the four match layouts, selected by the tag t. */
    method AtMatch(t: nat) returns (r: StepResult)
      requires input != output && inputPointer <= input.Length
      modifies this, output
      ensures Took(Step(input[..], old(State(Match, t))), r)
    {
      if t >= 64 {
        r := AtShortMatch(t);
      } else if t >= 32 || t >= 16 {
        var ok, length := ReadLengthField(t, if t >= 32 then 32 else 8);
        if !ok {
          return Stop(Threw);
        }
        if t >= 32 {
          r := AtMediumTail(length);
        } else {
          r := AtFarTail(length);
        }
      } else {
        r := AtNearMatch(t);
      }
    }

    /** Lines 368-375: the trailing literals counted in the low bits of the byte two back. */
    method AtMatchDone(t0: nat) returns (r: StepResult)
      requires input != output && inputPointer <= input.Length
      modifies this, output
      ensures Took(Step(input[..], old(State(MatchDone, t0))), r)
    {
      if inputPointer < 2 {
        return Stop(Threw);
      }
      var t := input[inputPointer - 2] as int % 4;
      if t == 0 {
        return Continue(LoopTop, t);
      }
      var ok := CopyLiteralBytes(t);
      if !ok {
        return Stop(Threw);
      }
      if inputPointer >= input.Length {
        return Stop(Threw);
      }
      t := input[inputPointer] as int;
      inputPointer := inputPointer + 1;
      return Continue(Match, t);
    }

    /** Runs the code of program point pc. */
    method StepFrom(pc: Pc, t: nat) returns (r: StepResult)
      requires input != output && inputPointer <= input.Length
      modifies this, output
      ensures Took(Step(input[..], old(State(pc, t))), r)
    {
      match pc {
        case Start => r := AtStart();
        case LoopTop => r := AtLoopTop(t);
        case FirstLiteralRun => r := AtFirstLiteralRun(t);
        case Match => r := AtMatch(t);
        case MatchDone => r := AtMatchDone(t);
      }
    }

    /** Decompress (lines 271-379): runs the program points until the end; the result is
        what Run computes from the starting state, and on a normal end the output array holds
        Run's output. */
    method Decompress() returns (r: Result)
      requires input != output && inputPointer <= input.Length
      modifies this, output
      ensures var o := Run(input[..], old(State(Start, 0)));
        (r == Threw <==> o == Fault) && (r.Returned? ==> o == Done(r.code, output[..]))
    {
      var pc, t := Start, 0;
      while true
        invariant inputPointer <= input.Length
        invariant Run(input[..], State(pc, t)) == Run(input[..], old(State(Start, 0)))
        decreases Measure(input[..], State(pc, t))
      {
        var step := StepFrom(pc, t);
        match step {
          case Stop(res) => return res;
          case Continue(pc1, t1) => pc, t := pc1, t1;
        }
      }
    }
  }
}
