/** The compression pump of gzip.cpp around a codec that is not part of the repository. */
module Pump {

  datatype Code = Ok | StreamEnd

  /** deflate(): it consumes some prefix of its input and fills some of the room, and given
      input, or asked to finish, it gets on.  `debt` bounds how often in a row it may put
      out bytes without consuming any. */
  class Codec {
    ghost var consumed: seq<bv8>
    ghost var produced: seq<bv8>
    var debt: nat
    var ended: bool

    constructor ()
      ensures consumed == [] && produced == [] && !ended
    {
      consumed, produced, debt, ended := [], [], 0, false;
    }

    method Deflate(input: seq<bv8>, room: nat, finish: bool) returns (used: nat, output: seq<bv8>, rc: Code)
      requires !ended && room > 0 && (finish || input != [])
      modifies this
      ensures used <= |input| && |output| <= room
      ensures consumed == old(consumed) + input[..used] && produced == old(produced) + output
      ensures ended <==> rc == StreamEnd
      ensures rc == StreamEnd ==> finish && used == |input|
      ensures rc == Ok ==> used > 0 || (output != [] && debt < old(debt))
    {
      used :| 0 <= used <= |input| && (debt == 0 && input != [] ==> used > 0);
      var n: nat :| n <= room && (used == 0 && debt > 0 ==> n > 0);
      output := [];
      for i := 0 to n
        invariant |output| == i
      {
        var b: bv8 := *;
        output := output + [b];
      }
      var last: bool := *;
      rc := if finish && used == |input| && (last || (used == 0 && debt == 0)) then StreamEnd else Ok;
      if used > 0 {
        debt := *;
      } else if debt > 0 {
        debt := debt - 1;
      }
      consumed, produced, ended := consumed + input[..used], produced + output, rc == StreamEnd;
    }
  }

  datatype Mode = Compress | Decompress | Neither | Gzip

  class Zlib {
    const inbuf: array<bv8>
    const outbuf: array<bv8>
    const outThreshold: nat
    const codec: Codec
    var nextIn: nat
    var availIn: nat
    var nextOut: nat
    var availOut: nat
    var mode: Mode
    /** What write_cb has been given so far. */
    var sink: seq<bv8>
    /** What compress has been given so far. */
    ghost var fed: seq<bv8>

    /** Both ends are transparent: what the codec has consumed and the pending part of the
        input buffer are what was put in; what has been written and the filled part of the
        output buffer are what the codec has produced. */
    ghost predicate Valid()
      reads this, inbuf, outbuf, codec
    {
      Moved() && (availIn == 0 ==> nextIn == 0)
    }

    constructor (inbufsiz: nat, outbufsiz: nat)
      requires inbufsiz > 0 && outbufsiz > 0
      ensures Valid() && mode == Neither && fed == [] && sink == [] && !codec.ended
      ensures fresh(inbuf) && fresh(outbuf) && fresh(codec)
      ensures inbuf.Length == inbufsiz && outbuf.Length == outbufsiz
    {
      inbuf := new bv8[inbufsiz];
      outbuf := new bv8[outbufsiz];
      outThreshold := if outbufsiz < 64 then 0 else 32;
      codec := new Codec();
      nextIn, availIn, nextOut, availOut := 0, 0, 0, outbufsiz;
      mode, sink, fed := Neither, [], [];
    }

    method GzipInit()
      modifies this`mode
      ensures mode == Gzip
    {
      mode := Gzip;
    }

    /** Hands the filled part of the output buffer to write_cb. */
    method WriteCallback()
      requires Moved()
      modifies this`nextOut, this`availOut, this`sink
      ensures Moved() && nextOut == 0 && sink == codec.produced
    {
      var writeBytes := nextOut;
      if writeBytes > 0 {
        sink := sink + outbuf[..writeBytes];
        nextOut := 0;
        availOut := outbuf.Length;
      }
    }

    /** A call of deflate on the z_stream: its pointers move over what was consumed and
        filled. */
    method Deflate(finish: bool) returns (rc: Code)
      requires Moved() && !codec.ended && availOut > 0 && (finish || availIn > 0)
      modifies this`nextIn, this`availIn, this`nextOut, this`availOut, outbuf, codec
      ensures Moved()
      ensures codec.ended <==> rc == StreamEnd
      ensures rc == StreamEnd ==> finish && availIn == 0
      ensures rc == Ok ==> availIn < old(availIn) || (availIn == old(availIn) && codec.debt < old(codec.debt))
    {
      var input := inbuf[nextIn..nextIn + availIn];
      var used, output;
      used, output, rc := codec.Deflate(input, availOut, finish);
      Fill(output);
      assert inbuf[nextIn + used..nextIn + availIn] == input[used..];
      Regroup(old(codec.consumed), input, used);
      Reassociate(sink, old(outbuf[..nextOut]), output);
      nextIn, availIn := nextIn + used, availIn - used;
    }

    static lemma Regroup(consumed: seq<bv8>, input: seq<bv8>, used: nat)
      requires used <= |input|
      ensures (consumed + input[..used]) + input[used..] == consumed + input
    {
    }

    static lemma Reassociate(a: seq<bv8>, b: seq<bv8>, c: seq<bv8>)
      ensures (a + b) + c == a + (b + c)
    {
    }

    /** Valid, but that an empty input buffer has not been rewound. */
    ghost predicate Moved()
      reads this, inbuf, outbuf, codec
    {
      && inbuf != outbuf && inbuf.Length > 0 && outbuf.Length > 0
      && outThreshold == (if outbuf.Length < 64 then 0 else 32)
      && nextIn + availIn <= inbuf.Length
      && nextOut + availOut == outbuf.Length
      && codec.consumed + inbuf[nextIn..nextIn + availIn] == fed
      && sink + outbuf[..nextOut] == codec.produced
    }

    method Fill(output: seq<bv8>)
      requires nextOut + |output| <= outbuf.Length && |output| <= availOut && outbuf != inbuf
      modifies this`nextOut, this`availOut, outbuf
      ensures nextOut == old(nextOut) + |output| && availOut == old(availOut) - |output|
      ensures outbuf[..nextOut] == old(outbuf[..nextOut]) + output
    {
      forall i | 0 <= i < |output| {
        outbuf[nextOut + i] := output[i];
      }
      nextOut, availOut := nextOut + |output|, availOut - |output|;
    }

    /** Takes all of buf in, through the input buffer piece by piece, writing out what the
        codec produces when little room is left.  Terminates for any codec that gets on. */
    method Compress(buf: seq<bv8>)
      requires Valid() && mode != Decompress && !codec.ended
      modifies this`nextIn, this`availIn, this`nextOut, this`availOut, this`mode, this`sink, this`fed
      modifies inbuf, outbuf, codec
      ensures Valid() && mode == Mode.Compress && !codec.ended
      ensures fed == old(fed) + buf && old(sink) <= sink
    {
      mode := Mode.Compress;
      var ubuf := 0;
      while true
        invariant Valid() && mode == Mode.Compress && !codec.ended
        invariant 0 <= ubuf <= |buf| && fed == old(fed) + buf[..ubuf] && old(sink) <= sink
        decreases |buf| - ubuf, availIn, codec.debt
      {
        PumpOnce();
        if ubuf == |buf| {
          break;
        }
        ghost var before := ubuf;
        ubuf := TakeMore(buf, ubuf);
        assert buf[..ubuf] == buf[..before] + buf[before..ubuf];
      }
      assert buf[..ubuf] == buf;
    }

    /** The first half of compress's loop: makes room, compresses what is pending, and
        rewinds the input buffer when it is empty. */
    method PumpOnce()
      requires Valid() && !codec.ended
      modifies this`nextIn, this`availIn, this`nextOut, this`availOut, this`sink, outbuf, codec
      ensures Valid() && !codec.ended && old(sink) <= sink
      ensures old(availIn) > 0 ==> availIn < old(availIn) || (availIn == old(availIn) && codec.debt < old(codec.debt))
      ensures old(availIn) == 0 ==> availIn == 0
    {
      if availOut <= outThreshold {
        WriteCallback();
      }
      if availIn > 0 {
        var rc := Deflate(false);
        if availIn <= 0 {
          nextIn, availIn := 0, 0;
        }
      }
    }

    /** The second half: as much more input as fits. */
    method TakeMore(buf: seq<bv8>, ubuf: nat) returns (ubuf': nat)
      requires Valid() && ubuf < |buf|
      modifies this`availIn, this`fed, inbuf
      ensures Valid() && ubuf <= ubuf' <= |buf| && fed == old(fed) + buf[ubuf..ubuf']
      ensures ubuf' == ubuf ==> availIn == old(availIn) > 0
    {
      ubuf' := ubuf;
      var unext := nextIn + availIn;
      if unext < inbuf.Length {
        var bufbytes := inbuf.Length - unext;
        if bufbytes > |buf| - ubuf {
          bufbytes := |buf| - ubuf;
        }
        Stuff(unext, buf[ubuf..ubuf + bufbytes]);
        ubuf' := ubuf + bufbytes;
      }
    }

    /** memcpy of more input behind what is pending. */
    method Stuff(unext: nat, bytes: seq<bv8>)
      requires Valid() && unext == nextIn + availIn && unext + |bytes| <= inbuf.Length
      modifies this`availIn, this`fed, inbuf
      ensures Valid() && fed == old(fed) + bytes && availIn == old(availIn) + |bytes|
    {
      ghost var pending := inbuf[nextIn..unext];
      forall i | 0 <= i < |bytes| {
        inbuf[unext + i] := bytes[i];
      }
      availIn := availIn + |bytes|;
      fed := fed + bytes;
      assert inbuf[nextIn..nextIn + availIn] == pending + bytes;
      assert codec.consumed + (pending + bytes) == (codec.consumed + pending) + bytes;
    }

    /** Pushes everything out: afterwards the codec has consumed all that was put in, and
        all it has produced has been written. */
    method Finish()
      requires Valid() && mode == Mode.Compress && !codec.ended
      modifies this`nextIn, this`availIn, this`nextOut, this`availOut, this`sink, outbuf, codec
      ensures codec.ended && codec.consumed == fed && sink == codec.produced
      ensures availIn == 0 && nextOut == 0 && old(sink) <= sink
    {
      var rc := Ok;
      if availOut < outbuf.Length {
        WriteCallback();
      }
      while rc != StreamEnd && availIn > 0
        invariant Moved() && !codec.ended && rc == Ok && nextOut == 0 && old(sink) <= sink
        decreases availIn, codec.debt
      {
        if availOut > 0 {
          rc := Deflate(false);
        }
        if availOut < outbuf.Length {
          WriteCallback();
        }
      }
      while rc != StreamEnd
        invariant Moved() && availIn == 0 && nextOut == 0 && old(sink) <= sink
        invariant codec.ended <==> rc == StreamEnd
        decreases !codec.ended, codec.debt
      {
        rc := Deflate(true);
        if availOut < outbuf.Length {
          WriteCallback();
        }
      }
      assert inbuf[nextIn..nextIn + availIn] == [] && outbuf[..nextOut] == [];
    }
  }

  /** Gzip::compress: the text goes through one codec in order and without loss, however
      it is cut into pieces on the way in.  An empty text never initialises the codec, and
      finish then fails. */
  method GzipCompress(instr: seq<bv8>) returns (aborted: bool, otstr: seq<bv8>, codec: Codec)
    ensures aborted <==> instr == []
    ensures !aborted ==> codec.ended && codec.consumed == instr && otstr == codec.produced
  {
    var zlib := new Zlib(8 * 1024, 8 * 1024);
    zlib.GzipInit();
    var gpos := 0;
    while gpos < |instr|
      invariant 0 <= gpos <= |instr| && zlib.Valid() && !zlib.codec.ended && zlib.fed == instr[..gpos]
      invariant zlib.mode == if gpos == 0 then Gzip else Mode.Compress
      invariant fresh(zlib) && fresh(zlib.inbuf) && fresh(zlib.outbuf) && fresh(zlib.codec)
    {
      var sn :| 1 <= sn <= 16 * 1024 && gpos + sn <= |instr|;
      assert instr[..gpos + sn] == instr[..gpos] + instr[gpos..gpos + sn];
      zlib.Compress(instr[gpos..gpos + sn]);
      gpos := gpos + sn;
    }
    assert instr[..gpos] == instr;
    aborted := zlib.mode != Mode.Compress;
    if !aborted {
      zlib.Finish();
    }
    otstr, codec := zlib.sink, zlib.codec;
  }
}
