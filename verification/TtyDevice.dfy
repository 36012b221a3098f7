/** The terminal driver's ring code as an object, each procedure run to its end without the other
    side. Modules TtyInput and TtyOutput take the same code apart into interleaved steps. */
module TtyDevice {
  import opened Common
  import opened Rings
  import In = TtyInput
  import Out = TtyOutput

  class DevTty {
    const inBuffer: array<int>
    var insertInput: nat
    var extractInput: nat
    const outBuffer: array<int>
    var insertOutput: nat
    var extractOutput: nat
    const isConsole: bool
    var openCount: nat

    /** Transfers that Proc_CallFunc has scheduled, calls made to consume input, bytes Td still
        holds for output, and whether the device is sending. */
    var scheduledIn: nat
    var scheduledOut: nat
    var sink: In.Sink
    var td: seq<int>
    var active: bool

    ghost predicate Valid()
      reads this
    {
      && inBuffer.Length == In.TTY_IN_BUF_SIZE && insertInput < inBuffer.Length && extractInput < inBuffer.Length
      && outBuffer.Length == Out.TTY_OUT_BUF_SIZE && insertOutput < outBuffer.Length && extractOutput < outBuffer.Length
      && inBuffer != outBuffer
    }

    ghost function Input(): seq<int>
      reads this, inBuffer
      requires Valid()
    {
      Contents(inBuffer[..], extractInput, insertInput)
    }

    ghost function Output(): seq<int>
      reads this, outBuffer
      requires Valid()
    {
      Contents(outBuffer[..], extractOutput, insertOutput)
    }

    constructor (isConsole: bool)
      ensures Valid() && Input() == [] && Output() == [] && openCount == 0 && td == [] && !active
      ensures this.isConsole == isConsole && sink == In.Sink(false, []) && fresh(inBuffer) && fresh(outBuffer)
    {
      this.isConsole := isConsole;
      inBuffer, outBuffer := new int[In.TTY_IN_BUF_SIZE], new int[Out.TTY_OUT_BUF_SIZE];
      insertInput, extractInput, insertOutput, extractOutput := 0, 0, 0, 0;
      scheduledIn, scheduledOut, openCount := 0, 0, 0;
      sink, td, active := In.Sink(false, []), [], false;
    }

    /** DevTtyInputChar. */
    method InputChar(value: int) returns (accepted: bool)
      requires Valid()
      modifies this`insertInput, this`scheduledIn, inBuffer
      ensures Valid() && (accepted <==> |old(Input())| < In.TTY_IN_BUF_SIZE - 1)
      ensures Input() == if accepted then old(Input()) + [value] else old(Input())
      ensures scheduledIn == old(scheduledIn) + if old(Input()) == [] then 1 else 0
    {
      ghost var cells := inBuffer[..];
      var at := insertInput;
      var next := at + 1;
      if next >= In.TTY_IN_BUF_SIZE {
        next := 0;
      }
      if next == extractInput {
        return false;
      }
      inBuffer[at] := value;
      StoreFree(cells, extractInput, at, value);
      assert inBuffer[..] == cells[at := value];
      Advance(inBuffer[..], extractInput, at);
      insertInput := next;
      if at == extractInput {
        scheduledIn := scheduledIn + 1;
      }
      return true;
    }

    /** TransferInProc, for a terminal without an inputProc: on an open terminal everything in the
        ring is delivered in order. */
    method TransferIn()
      requires Valid()
      modifies this`extractInput, this`sink
      ensures Valid()
      ensures openCount == 0 ==> Input() == old(Input()) && sink == old(sink)
      ensures openCount > 0 ==> Input() == [] && sink == In.DeliverAll(isConsole, old(sink), old(Input()))
    {
      if openCount == 0 {
        return;
      }
      while extractInput != insertInput
        invariant Valid()
        invariant In.DeliverAll(isConsole, sink, Input()) == In.DeliverAll(isConsole, old(sink), old(Input()))
        decreases Distance(In.TTY_IN_BUF_SIZE, extractInput, insertInput)
      {
        ghost var waiting := Input();
        var value := inBuffer[extractInput];
        var next := extractInput + 1;
        if next >= In.TTY_IN_BUF_SIZE {
          next := 0;
        }
        extractInput := next;
        assert waiting == [value] + Input();
        sink := In.Deliver(isConsole, sink, value);
      }
    }

    /** DevTtyOutputChar: the next byte, or -1 when the ring is empty. */
    method OutputChar() returns (result: int)
      requires Valid()
      modifies this`extractOutput, this`scheduledOut
      ensures Valid()
      ensures old(Output()) == [] ==> result == -1 && Output() == [] && scheduledOut == old(scheduledOut)
      ensures old(Output()) != [] ==> old(Output()) == [result] + Output()
      ensures old(Output()) != [] ==> scheduledOut == old(scheduledOut) + if Output() == [] then 1 else 0
    {
      if extractOutput == insertOutput {
        return -1;
      }
      result := outBuffer[extractOutput];
      var next := extractOutput + 1;
      if next >= Out.TTY_OUT_BUF_SIZE {
        next := 0;
      }
      extractOutput := next;
      if extractOutput == insertOutput {
        scheduledOut := scheduledOut + 1;
      }
    }

    /** Td_GetRaw: move up to `count` bytes from Td to the cells at insertOutput. */
    method GetRaw(count: nat) returns (tmp: nat)
      requires Valid() && insertOutput + count <= outBuffer.Length
      requires Distance(outBuffer.Length, extractOutput, insertOutput) + count < outBuffer.Length
      modifies this`td, outBuffer
      ensures tmp == Min(count, |old(td)|) && td == old(td)[tmp..]
      ensures outBuffer[insertOutput..insertOutput + tmp] == old(td)[..tmp]
      ensures Output() == old(Output())
    {
      tmp := Min(count, |td|);
      for k := 0 to tmp
        invariant outBuffer[insertOutput..insertOutput + k] == td[..k]
        invariant Output() == old(Output())
        modifies outBuffer
      {
        ghost var cells := outBuffer[..];
        StoreBeyond(cells, extractOutput, insertOutput, insertOutput + k, td[k]);
        outBuffer[insertOutput + k] := td[k];
        assert outBuffer[..] == cells[insertOutput + k := td[k]];
        assert outBuffer[insertOutput..insertOutput + k + 1] == cells[insertOutput..insertOutput + k] + [td[k]];
      }
      td := td[tmp..];
    }

    /** One turn of Transfer's loop: move a block of up to `count` bytes into the ring. */
    method MoveBlock(count: nat) returns (tmp: nat)
      requires Valid() && insertOutput + count <= outBuffer.Length
      requires Distance(outBuffer.Length, extractOutput, insertOutput) + count < outBuffer.Length
      modifies this`insertOutput, this`td, outBuffer
      ensures Valid() && tmp == Min(count, |old(td)|) && td == old(td)[tmp..]
      ensures Output() == old(Output()) + old(td)[..tmp]
    {
      ghost var rest := td;
      tmp := GetRaw(count);
      AdvanceBlock(outBuffer[..], extractOutput, insertOutput, tmp);
      assert outBuffer[..][insertOutput..insertOutput + tmp] == rest[..tmp];
      var next := insertOutput + tmp;
      if next >= Out.TTY_OUT_BUF_SIZE {
        next := 0;
      }
      insertOutput := next;
    }

    /** Transfer: as many of Td's bytes as fit go to the ring, and the device is woken up when the
        ring was empty and is no longer. */
    method Transfer()
      requires Valid()
      modifies this`insertOutput, this`td, this`active, outBuffer
      ensures Valid()
      ensures Output() + td == old(Output()) + old(td)
      ensures td == [] || |Output()| == Out.TTY_OUT_BUF_SIZE - 1
      ensures active <==> old(active) || (old(Output()) == [] && Output() != [])
    {
      ghost var all := Output() + td;
      var oldDiff := insertOutput - extractOutput;
      while true
        invariant Valid() && Output() + td == all && |old(Output())| <= |Output()|
        decreases |td|
        modifies this`insertOutput, this`td, outBuffer
      {
        var count := extractOutput - insertOutput - 1;
        if count < 0 {
          count := count + Out.TTY_OUT_BUF_SIZE;
        }
        if count > Out.TTY_OUT_BUF_SIZE - insertOutput {
          count := Out.TTY_OUT_BUF_SIZE - insertOutput;
        }
        if count <= 0 {
          break;
        }
        ghost var ring, rest := Output(), td;
        var tmp := MoveBlock(count);
        assert ring + rest[..tmp] + rest[tmp..] == ring + rest;
        if tmp < count {
          break;
        }
      }
      if oldDiff == 0 && insertOutput != extractOutput {
        active := true;
      }
    }
  }
}
