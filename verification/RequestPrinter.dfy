/** The client's side of the wire: command lines and binary blocks written to its connection. */
module RequestPrinter {
  import opened Bytes
  import opened Protocol
  import opened Tokeniser
  import opened Conversation
  import opened Requests

  class Connection {
    var written: bytes

    constructor ()
      ensures written == []
    {
      written := [];
    }

    method Write(data: bytes)
      modifies this
      ensures written == old(written) + data
    {
      written := written + data;
    }

    /** `execute_raw_command`, and the first half of `execute_command`. */
    method ExecuteRawCommand(cmd: bytes, argString: Option<bytes>)
      modifies this
      ensures written == old(written) + PrintLine(cmd, argString)
    {
      if argString.None? {
        Write(cmd + [NEWLINE]);
        assert cmd + [] + [NEWLINE] == cmd + [NEWLINE];
      } else {
        Write(cmd + [SPACE] + argString.value + [NEWLINE]);
        assert cmd + [SPACE] + argString.value == cmd + ([SPACE] + argString.value);
      }
    }

    /** `send_data`: the header is filled byte by byte. Its size field has 32 bits, so that longer
        data would be announced by its length modulo 2^32. */
    method SendData(data: bytes)
      modifies this
      ensures written == old(written) + ([0] + BigEndian(|data| % 0x1_0000_0000) + data)
      ensures |data| < 0x1_0000_0000 ==> written == old(written) + EncodeBlock(data)
    {
      var buf := new byte[5];
      var size := |data|;
      buf[0] := 0;
      buf[1] := size / 0x100_0000 % 0x100;
      buf[2] := size / 0x1_0000 % 0x100;
      buf[3] := size / 0x100 % 0x100;
      buf[4] := size % 0x100;
      LowBytes(size);
      assert buf[..] == [0] + BigEndian(size % 0x1_0000_0000);
      Write(buf[..]);
      Write(data);
      assert written == old(written) + (buf[..] + data);
    }

    /** A request as the validator sends it: the command, then its data if it has any. */
    method SendRequest(cfg: Config, r: Request)
      requires Acceptable(cfg, r)
      modifies this
      ensures written == old(written) + Print(cfg, r)
    {
      ExecuteRawCommand(r.name, if r.args == [] then None else Some(Join(r.args, SEMICOLON)));
      if r.data.Some? {
        SendData(r.data.value);
        ConcatIsAssociative(old(written), RequestLine(r), EncodeBlock(r.data.value));
      } else {
        assert RequestLine(r) + [] == RequestLine(r);
      }
    }
  }

  lemma LowByte(a: nat, b: nat)
    ensures (a * 0x100 + b) % 0x100 == b % 0x100
  {
  }

  /** The masked shifts of a size only see its low 32 bits. */
  lemma LowBytes(size: nat)
    ensures var low := size % 0x1_0000_0000;
      && size / 0x100_0000 % 0x100 == low / 0x100_0000 % 0x100
      && size / 0x1_0000 % 0x100 == low / 0x1_0000 % 0x100
      && size / 0x100 % 0x100 == low / 0x100 % 0x100
      && size % 0x100 == low % 0x100
  {
    var high, low := size / 0x1_0000_0000, size % 0x1_0000_0000;
    LowByte(high, low / 0x100_0000);
    LowByte(high * 0x100, low / 0x1_0000);
    LowByte(high * 0x1_0000, low / 0x100);
    LowByte(high * 0x100_0000, low);
    Shifted(high, low);
  }

  lemma Shifted(high: nat, low: uint32)
    ensures var size := high * 0x1_0000_0000 + low;
      && size / 0x100_0000 == high * 0x100 + low / 0x100_0000
      && size / 0x1_0000 == high * 0x100 * 0x100 + low / 0x1_0000
      && size / 0x100 == high * 0x1_0000 * 0x100 + low / 0x100
      && size == high * 0x100_0000 * 0x100 + low
  {
  }
}
