/** include/binary_log/binary_log.hpp: the logger, and the macro that registers a site on its first call. */
module BinaryLogs {
  import opened Bytes
  import opened Args
  import opened IndexFile
  import opened LogFile
  import opened RunLength
  import opened Packers

  const MAX_SITES := 256

  /** One expansion of BINARY_LOG: where it is, and its format string. */
  datatype Site = Site(line: nat, format: seq<Byte>)

  class BinaryLog {
    const packer: Packer
    var formatStringIndex: nat // a uint8_t

    ghost predicate Valid()
      reads this, packer
    {
      packer.Valid() && formatStringIndex < 256
    }

    constructor (p: Packer)
      requires p.Valid()
      ensures Valid() && packer == p && formatStringIndex == 0
    {
      packer := p;
      formatStringIndex := 0;
    }

    /** Returns the position of the entry written, as long as the 8-bit counter has not wrapped. */
    method LogIndex(format: seq<Byte>, args: seq<Arg>) returns (pos: nat)
      requires Valid()
      modifies this, packer`indexFile, packer`indexBufferIndex, packer.indexBuffer
      ensures Valid()
      ensures packer.IndexStream() == old(packer.IndexStream()) + EntryBytes(format, args)
      ensures formatStringIndex == (old(formatStringIndex) + 1) % 256
      ensures pos == old(formatStringIndex)
    {
      formatStringIndex := (formatStringIndex + 1) % 256;
      packer.WriteEntry(format, args);
      pos := (formatStringIndex + 255) % 256;
    }

    method Log(pos: nat, args: seq<Arg>)
      requires Valid()
      modifies packer, packer.buffer, packer.runlengthBuffer
      ensures Valid()
      ensures packer.State() == Step(old(packer.State()), RunLength.Log(pos % U16_LIMIT, args))
      ensures packer.IndexStream() == old(packer.IndexStream())
    {
      packer.PackFormatStringIndex(pos % U16_LIMIT);
      if |args| > 0 && !AllArgsAreConstants(args) {
        packer.UpdateLogFile(args);
      } else {
        ConstantsLeaveNothing(args);
        assert packer.LogStream() + [] == packer.LogStream();
      }
    }
  }

  lemma {:induction false} ConstantsLeaveNothing(args: seq<Arg>)
    requires args == [] || AllArgsAreConstants(args)
    ensures CallBytes(args) == []
  {
    if args != [] {
      ConstantsLeaveNothing(args[1..]);
    }
  }

  /** A program with one logger: `ids` holds the macro's static variable of every site reached so far. */
  class Program {
    const logger: BinaryLog
    var ids: map<Site, nat>

    ghost predicate Valid()
      reads this, logger, logger.packer
    {
      logger.Valid()
    }

    constructor (l: BinaryLog)
      requires l.Valid()
      ensures Valid() && logger == l && ids == map[]
    {
      logger := l;
      ids := map[];
    }

    /** The macro: the static is initialised once, then the call is logged. */
    method LogCall(site: Site, args: seq<Arg>)
      requires Valid()
      modifies this, logger, logger.packer
      modifies logger.packer.buffer, logger.packer.indexBuffer, logger.packer.runlengthBuffer
      ensures Valid()
      ensures site in old(ids) ==>
        && ids == old(ids) && logger.formatStringIndex == old(logger.formatStringIndex)
        && logger.packer.IndexStream() == old(logger.packer.IndexStream())
      ensures site !in old(ids) ==>
        && ids == old(ids)[site := old(logger.formatStringIndex)]
        && logger.formatStringIndex == (old(logger.formatStringIndex) + 1) % 256
        && logger.packer.IndexStream() == old(logger.packer.IndexStream()) + EntryBytes(site.format, args)
      ensures logger.packer.State()
           == Step(old(logger.packer.State()), RunLength.Log(ids[site] % U16_LIMIT, args))
    {
      if site !in ids {
        var pos := logger.LogIndex(site.format, args);
        ids := ids[site := pos];
      }
      logger.Log(ids[site], args);
    }
  }
}
