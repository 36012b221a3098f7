/** The system log device: kernel output waits in a circular buffer for the one process that reads it. */
module Syslog {
  import opened Common
  import opened SyslogSpec

  class SyslogDevice {
    const buffer: array<byte>
    var firstIndex: int
    var lastIndex: int
    const enabled: bool
    var openForReading: bool
    var overflow: bool
    /** What Mach_MonPutChar has shown. */
    var console: seq<byte>
    /** Where in that the overflow messages stand. */
    var messages: seq<nat>
    /** How often Fsio_DevNotifyReader has been called. */
    var notified: nat

    constructor (enabled: bool)
      ensures Valid() && SyslogSpec.Empty(Log()) && !openForReading && !overflow
      ensures console == [] && messages == [] && notified == 0
    {
      buffer := new byte[SYSLOG_BUF_SIZE];
      firstIndex, lastIndex, overflow, console := -1, -1, false, [];
      messages, notified := [], 0;
      openForReading := false;
      this.enabled := enabled;
    }

    ghost function Log(): State
      reads this, buffer
    {
      State(buffer[..], firstIndex, lastIndex)
    }

    ghost predicate Valid()
      reads this, buffer
    {
      SyslogSpec.Valid(Log())
    }

    /** Dev_SyslogOpen: there is one reader at a time. */
    method Open(forReading: bool) returns (status: ReturnStatus)
      modifies this`openForReading
      ensures status == if forReading && old(openForReading) then FAILURE else SUCCESS
      ensures openForReading <==> old(openForReading) || forReading
    {
      if forReading {
        if openForReading {
          return FAILURE;
        }
        openForReading := true;
      }
      return SUCCESS;
    }

    /** bcopy into the buffer. */
    method Copy(p: nat, bytes: seq<byte>)
      requires p + |bytes| <= buffer.Length
      modifies buffer
      ensures buffer[..] == Put(old(buffer[..]), p, bytes)
    {
      ghost var was := buffer[..];
      for i := 0 to |bytes|
        invariant buffer[..] == was[..p] + bytes[..i] + was[p + i..]
      {
        CopiedMore(buffer[..], was, p, bytes, i);
        buffer[p + i] := bytes[i];
      }
      assert bytes[..|bytes|] == bytes;
    }

    /** Dev_SyslogRead. */
    method Read(n: nat) returns (status: ReturnStatus, out: seq<byte>)
      requires Valid()
      modifies this`firstIndex, this`lastIndex, this`overflow
      ensures Valid() && (Log(), out) == SyslogSpec.Read(old(Log()), n)
      ensures status == (if old(SyslogSpec.Empty(Log())) then FS_WOULD_BLOCK else SUCCESS) && !overflow
    {
      var bytesLeft := n;
      overflow := false;
      out := [];
      if firstIndex == -1 {
        return FS_WOULD_BLOCK, out;
      }
      if firstIndex > lastIndex {
        out := TakeEnd(bytesLeft);
        bytesLeft := bytesLeft - |out|;
      }
      if bytesLeft > 0 {
        var more := TakeStart(bytesLeft);
        out := out + more;
      }
      return SUCCESS, out;
    }

    /** The part of a wrapped log up to the end of the buffer. */
    method TakeEnd(bytesLeft: nat) returns (out: seq<byte>)
      requires Valid() && Wrapped(Log())
      modifies this`firstIndex
      ensures (Log(), out) == ReadEnd(old(Log()), bytesLeft)
    {
      var toRead: nat := SYSLOG_BUF_SIZE - firstIndex;
      var copyAddr := firstIndex;
      if toRead <= bytesLeft {
        firstIndex := 0;
      } else {
        toRead := bytesLeft;
        firstIndex := firstIndex + toRead;
      }
      out := buffer[copyAddr..copyAddr + toRead];
      assert out == buffer[..][copyAddr..copyAddr + toRead];
      assert buffer[..][copyAddr..] == buffer[..][copyAddr..SYSLOG_BUF_SIZE];
    }

    /** The rest of the log. */
    method TakeStart(bytesLeft: nat) returns (out: seq<byte>)
      requires Valid() && !SyslogSpec.Empty(Log()) && !Wrapped(Log()) && bytesLeft > 0
      modifies this`firstIndex, this`lastIndex
      ensures (Log(), out) == ReadStart(old(Log()), bytesLeft)
    {
      var toRead: nat := lastIndex - firstIndex + 1;
      var copyAddr := firstIndex;
      if toRead <= bytesLeft {
        firstIndex, lastIndex := -1, -1;
      } else {
        toRead := bytesLeft;
        firstIndex := firstIndex + toRead;
      }
      out := buffer[copyAddr..copyAddr + toRead];
      assert out == buffer[..][copyAddr..copyAddr + toRead];
    }

    /** Mach_MonPutChar for each byte, unless printing is off. */
    method ToConsole(bytes: seq<byte>, dontPrint: bool)
      modifies this`console
      ensures console == old(console) + if dontPrint then [] else bytes
    {
      for i := 0 to |bytes|
        invariant console == old(console) + if dontPrint then [] else bytes[..i]
      {
        if !dontPrint {
          console := console + [bytes[i]];
        }
      }
      assert bytes[..|bytes|] == bytes;
    }

    /** The bytes that find the log full. */
    method Overflow(bytes: seq<byte>, dontPrint: bool)
      modifies this`overflow, this`messages, this`console
      ensures overflow && messages == old(messages) + if old(overflow) then [] else [|old(console)|]
      ensures console == old(console) + if dontPrint then [] else bytes
    {
      if !overflow {
        messages := messages + [|console|];
        overflow := true;
      }
      ToConsole(bytes, dontPrint);
    }

    /** The part of Dev_SyslogWrite that fills the log. */
    method Store(bytes: seq<byte>, dontPrint: bool) returns (length: nat)
      requires Valid()
      modifies this`firstIndex, this`lastIndex, this`overflow, this`console, this`messages, buffer
      ensures var w := SyslogSpec.Write(old(Log()), bytes);
              && Log() == w.state && length == w.stored + w.printed
              && console == old(console) + (if dontPrint then [] else bytes[w.stored..w.stored + w.printed])
              && (overflow <==> old(overflow) || w.printed > 0)
              && messages == old(messages) + if w.printed > 0 && !old(overflow) then [|old(console)|] else []
    {
      var n1 := FillEnd(bytes);
      if n1 == |bytes| {
        return n1;
      }
      var nextIndex := lastIndex + 1;
      if nextIndex == SYSLOG_BUF_SIZE {
        nextIndex := 0;
      }
      if nextIndex == firstIndex {
        Overflow(bytes[n1..], dontPrint);
        return |bytes|;
      }
      var n2 := FillStart(bytes[n1..], nextIndex);
      return n1 + n2;
    }

    /** Dev_SyslogWrite. With the log open, the length reported is the number of bytes stored and of
        bytes put on the console; with it closed everything goes to the console. The first overflow
        since the last read is announced, ahead of the bytes that find no room. The reader is notified
        of every write to its open log, but not of those the kernel debugger diverts to it. */
    method Write(bytes: seq<byte>, usingSyslog: bool, dontPrint: bool) returns (length: nat)
      requires Valid()
      modifies this`firstIndex, this`lastIndex, this`overflow, this`console, this`messages, this`notified, buffer
      ensures Valid()
      ensures notified == old(notified) + if enabled && !usingSyslog && openForReading then 1 else 0
      ensures enabled && (usingSyslog || openForReading) ==>
                var w := SyslogSpec.Write(old(Log()), bytes);
                && Log() == w.state && length == w.stored + w.printed
                && console == old(console) + (if dontPrint then [] else bytes[w.stored..w.stored + w.printed])
                && (overflow <==> old(overflow) || w.printed > 0)
                && messages == old(messages) + if w.printed > 0 && !old(overflow) then [|old(console)|] else []
      ensures !(enabled && (usingSyslog || openForReading)) ==>
                && length == |bytes| && Log() == old(Log())
                && overflow == old(overflow) && messages == old(messages)
                && console == old(console) + if enabled && !dontPrint then bytes else []
    {
      if !enabled {
        return |bytes|;
      }
      if !usingSyslog {
        if !openForReading {
          ToConsole(bytes, dontPrint);
          return |bytes|;
        }
      }
      length := Store(bytes, dontPrint);
      if !usingSyslog {
        notified := notified + 1;
      }
    }

    method FillEnd(bytes: seq<byte>) returns (n: nat)
      requires Valid()
      modifies this`lastIndex, buffer
      ensures (Log(), n) == SyslogSpec.FillEnd(old(Log()), bytes)
    {
      n := 0;
      if firstIndex != -1 && firstIndex <= lastIndex {
        n := SYSLOG_BUF_SIZE - (lastIndex + 1);
        if n > |bytes| {
          n := |bytes|;
        }
        Copy(lastIndex + 1, bytes[..n]);
        lastIndex := lastIndex + n;
      }
    }

    method FillStart(bytes: seq<byte>, nextIndex: int) returns (n: nat)
      requires Valid() && !Full(Log()) && nextIndex == NextIndex(Log())
      requires SyslogSpec.Empty(Log()) || Wrapped(Log()) || lastIndex == SYSLOG_BUF_SIZE - 1
      modifies this`firstIndex, this`lastIndex, buffer
      ensures (Log(), n) == SyslogSpec.FillStart(old(Log()), bytes)
    {
      var toWrite: nat;
      if firstIndex == -1 {
        toWrite := SYSLOG_BUF_SIZE;
        firstIndex := 0;
      } else {
        toWrite := firstIndex - nextIndex;
      }
      if toWrite > |bytes| {
        toWrite := |bytes|;
      }
      Copy(0, bytes[..toWrite]);
      lastIndex := nextIndex + toWrite - 1;
      return toWrite;
    }

    /** Dev_SyslogClose: when the reader goes, what it has not read is put on the console, in order. */
    method Close(forReading: bool, dontPrint: bool)
      requires Valid()
      modifies this`firstIndex, this`lastIndex, this`openForReading, this`console
      ensures Valid() && (openForReading <==> old(openForReading) && !forReading)
      ensures !forReading ==> Log() == old(Log()) && console == old(console)
      ensures forReading ==>
                && SyslogSpec.Empty(Log())
                && console == old(console) + if dontPrint then [] else Contents(old(Log()))
    {
      if forReading {
        openForReading := false;
        if firstIndex != -1 {
          if firstIndex <= lastIndex {
            ToConsole(buffer[firstIndex..lastIndex + 1], dontPrint);
          } else {
            ToConsole(buffer[firstIndex..], dontPrint);
            ToConsole(buffer[..lastIndex + 1], dontPrint);
          }
          firstIndex, lastIndex := -1, -1;
        }
      }
    }
  }
}
