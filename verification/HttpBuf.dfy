/** httpbuf.cpp: the incremental http reader over a growing buffer. */
module HttpBufs {
  import opened CStrings
  import opened CaseFold
  import opened Chunked
  import opened HeaderEnd
  import opened HeaderText
  import opened Options
  import opened Peers

  /** Conversion of a length to `short`. */
  function ToShort(n: nat): int {
    var m := n % 0x1_0000;
    if m < 0x8000 then m else m - 0x1_0000
  }

  /** Conversion of a length to `int`. */
  function ToInt(n: nat): int {
    var m := n % 0x1_0000_0000;
    if m < 0x8000_0000 then m else m - 0x1_0000_0000
  }

  /** Both keep a number that fits, and otherwise the one in range that differs by a multiple
      of 2^16 or 2^32. */
  lemma ConversionsWrap(n: nat)
    ensures n < 0x8000 ==> ToShort(n) == n
    ensures -0x8000 <= ToShort(n) < 0x8000 && (n - ToShort(n)) % 0x1_0000 == 0
    ensures n < 0x8000_0000 ==> ToInt(n) == n
    ensures -0x8000_0000 <= ToInt(n) < 0x8000_0000 && (n - ToInt(n)) % 0x1_0000_0000 == 0
  {
  }

  /** Conversion of a stream position to `size_t`. */
  function ToSize(pos: int): nat { pos % SIZE_T }

  class HttpBuf {
    // The std::stringstream it is: contents, read cursor and state bits.  The write
    // cursor stands at the end of the contents.
    var data: string
    var gpos: nat
    var eof: bool
    var failed: bool

    var state: State
    var hdrEpos: nat
    var hdrElen: nat
    var hdrChunked: nat
    var hdrChunklen: int

    /** How many characters the automaton has been fed. */
    ghost var fed: nat

    ghost predicate Valid()
      reads this
    {
      InBounds() && ScanKept()
    }

    ghost predicate InBounds()
      reads this
    {
      gpos <= |data|
    }

    ghost predicate ScanKept()
      reads this
    {
      Kept(data, state, hdrEpos, hdrElen, fed)
    }

    /** The automaton has seen a prefix of the contents exactly once, or has stopped just
        past the terminator that one pass over the contents finds. */
    static ghost predicate Kept(data: string, state: State, hdrEpos: nat, hdrElen: nat, fed: nat) {
      if hdrElen == 0 then
        fed == hdrEpos <= |data| && Scan(data[..hdrEpos]) == Miss(state)
      else
        fed == hdrEpos + hdrElen && Scan(data) == Hit(fed, hdrElen)
    }

    /** Appending to the contents leaves the scan where it is. */
    static lemma KeptByAppend(data: string, longer: string, state: State, hdrEpos: nat, hdrElen: nat, fed: nat)
      requires Kept(data, state, hdrEpos, hdrElen, fed) && data <= longer
      ensures Kept(longer, state, hdrEpos, hdrElen, fed)
    {
      assert longer == data + longer[|data|..];
      if hdrElen > 0 {
        ScanResumes(S0CR1, data, longer[|data|..], 0);
      } else {
        assert longer[..hdrEpos] == data[..hdrEpos];
      }
    }

    static lemma KeptHit(data: string, state: State, hdrEpos: nat, hdrElen: nat, fed: nat)
      requires Kept(data, state, hdrEpos, hdrElen, fed) && hdrElen > 0
      ensures Scan(data) == Hit(hdrEpos + hdrElen, hdrElen)
    {
    }

    static lemma KeptInside(data: string, state: State, hdrEpos: nat, hdrElen: nat, fed: nat)
      requires Kept(data, state, hdrEpos, hdrElen, fed)
      ensures hdrEpos + hdrElen <= |data|
    {
    }

    ghost predicate Good()
      reads this
    {
      !eof && !failed
    }

    /** Everything that has arrived or still will, in order. */
    ghost function Wire(peer: Peer): string
      requires peer.Valid()
      reads this, peer
    {
      data + peer.Rest()
    }

    constructor ()
      ensures Valid() && Good() && data == "" && gpos == 0 && hdrElen == 0 && hdrChunked == 0
    {
      data, gpos, eof, failed := "", 0, false, false;
      state, hdrEpos, hdrElen, hdrChunked, hdrChunklen := S0CR1, 0, 0, 0, 0;
      fed := 0;
    }

    /** Everything but the chunked trailer's position is cleared. */
    method Reset()
      modifies this
      ensures Valid() && Good() && data == "" && gpos == 0 && hdrElen == 0
      ensures hdrChunked == old(hdrChunked) && hdrChunklen == old(hdrChunklen)
    {
      state, hdrElen, hdrEpos := S0CR1, 0, 0;
      data, gpos, eof, failed := "", 0, false, false;
      fed := 0;
    }

    // ---- stringstream operations ---------------------------------------------------

    /** The cursors; -1 once the stream has failed. */
    function Tellg(): int
      reads this
    {
      if failed then -1 else gpos
    }

    function Tellp(): int
      reads this
    {
      if failed then -1 else |data|
    }

    /** size_t(tellp()). */
    function Extent(): (n: nat)
      requires |data| < SIZE_T
      reads this
      ensures n == if failed then SIZE_T - 1 else |data|
    {
      ToSize(Tellp())
    }

    /** A stream that has failed stores nothing. */
    method Write(bytes: string)
      requires !eof
      modifies this`data
      ensures data == if failed then old(data) else old(data) + bytes
    {
      if !failed {
        data := data + bytes;
      }
    }

    /** Reads some of what is there -- at least one character, unless nothing is -- up to
        n characters. */
    method Readsome(n: nat) returns (bytes: string)
      requires InBounds() && Good() && n > 0
      modifies this`gpos
      ensures InBounds() && gpos == old(gpos) + |bytes| && bytes == data[old(gpos)..gpos] && |bytes| <= n
      ensures bytes == "" <==> old(gpos) == |data|
    {
      if gpos == |data| {
        return "";
      }
      var k: nat :| 1 <= k <= n && gpos + k <= |data|;
      bytes := data[gpos..gpos + k];
      gpos := gpos + k;
    }

    /** Moves the read cursor, unless the stream has failed; a position beyond the contents
        makes it fail. */
    method Seekg(pos: nat)
      modifies this`gpos, this`eof, this`failed
      ensures !eof && failed == (old(failed) || pos > |data|)
      ensures gpos == if failed then old(gpos) else pos
    {
      eof := false;
      if pos > |data| {
        failed := true;
      }
      if !failed {
        gpos := pos;
      }
    }

    /** A read, and what it brings put behind the contents -- if the stream has not failed. */
    method Fetch(peer: Peer, bytes: nat) returns (rc: int)
      requires !eof && peer.Valid() && bytes > 0
      modifies this`data, peer
      ensures peer.Valid() && peer.issued == old(peer.issued) + [old(peer.pos)]
      ensures rc > 0 <==> old(peer.Rest()) != ""
      ensures if rc > 0 then rc == peer.pos - old(peer.pos) <= bytes && |peer.Rest()| < |old(peer.Rest())|
              else rc == peer.ending && peer.Rest() == "" && peer.pos == old(peer.pos) && data == old(data)
      ensures if failed then data == old(data)
              else Wire(peer) == old(Wire(peer)) && old(data) <= data
                   && |data| - |old(data)| == peer.pos - old(peer.pos)
    {
      var buf: string;
      rc, buf := peer.Receive(bytes);
      if rc > 0 {
        Write(buf);
        Rejoined(old(data), buf, peer.Rest());
      }
    }

    static lemma Rejoined(held: string, buf: string, rest: string)
      ensures held + (buf + rest) == (held + buf) + rest
    {
    }

    // ---- the end of the header -------------------------------------------------------

    /** True exactly when one pass over all the contents finds a terminator, and then its
        position and length; however the contents arrived and were scanned before.  The
        read cursor stays. */
    method HaveEnd() returns (found: bool, epos: nat, elen: nat)
      requires Valid() && Good() && |data| < SIZE_T
      modifies this`gpos, this`state, this`hdrEpos, this`hdrElen, this`fed, this`eof, this`failed
      ensures Valid() && Good() && gpos == old(gpos)
      ensures found <==> Scan(data).Hit?
      ensures found ==> epos == hdrEpos && elen == hdrElen > 0 && Scan(data) == Hit(epos + elen, elen)
      ensures !found ==> hdrElen == 0 && hdrEpos == |data|
      ensures old(fed) <= fed <= |data|
    {
      epos, elen := 0, 0;
      if hdrElen > 0 {
        return true, hdrEpos, hdrElen;
      }
      var savedGpos := gpos;
      if savedGpos != hdrEpos {
        Seekg(hdrEpos);
      }
      while gpos < |data|
        invariant Valid() && Good() && hdrElen == 0 && gpos == hdrEpos && old(fed) <= fed
        decreases |data| - gpos
      {
        var buf := Readsome(1024);
        found := FeedBlock(buf);
        if found {
          gpos := savedGpos;
          return true, hdrEpos, hdrElen;
        }
      }
      Seekg(savedGpos);
      assert data[..hdrEpos] == data;
      found := false;
    }

    /** The body of the scan loop: one block, just read, through the automaton. */
    method FeedBlock(buf: string) returns (found: bool)
      requires Valid() && hdrElen == 0 && |data| < SIZE_T && gpos == hdrEpos + |buf| && buf == data[hdrEpos..gpos]
      modifies this`state, this`hdrEpos, this`hdrElen, this`fed
      ensures ScanKept() && old(fed) <= fed && (found <==> hdrElen > 0)
      ensures !found ==> hdrEpos == gpos
    {
      ghost var start := hdrEpos;
      var n, x := |buf|, 0;
      while x < n
        invariant 0 <= x <= n && hdrEpos == start && hdrElen == 0
        invariant fed == start + x && Scan(data[..start + x]) == Miss(state)
      {
        var ch := buf[x];
        assert ch == data[start + x];
        FeedStep(data, start + x, state);
        fed := fed + 1;
        match Feed(state, ch) {
          case Found(len) =>
            hdrElen := len;
            WrapsBack(hdrEpos, x, hdrElen);
            hdrEpos := (hdrEpos + (x + SIZE_T - hdrElen + 1) % SIZE_T) % SIZE_T;
            return true;
          case Go(next) =>
            state := next;
        }
        x := x + 1;
      }
      hdrEpos := hdrEpos + n;
      found := false;
    }

    /** `hdr_epos += x - hdr_elen + 1` in size_t: the difference may wrap below zero, when
        the terminator started in an earlier block, but the sum does not. */
    static lemma WrapsBack(epos: nat, x: nat, elen: nat)
      requires elen <= epos + x + 1 < SIZE_T && elen <= 4
      ensures (epos + (x + SIZE_T - elen + 1) % SIZE_T) % SIZE_T == epos + x - elen + 1
    {
    }

    static lemma FeedStep(s: string, i: nat, state: State)
      requires i < |s| && Scan(s[..i]) == Miss(state)
      ensures match Feed(state, s[i])
              case Go(next) => Scan(s[..i + 1]) == Miss(next)
              case Found(elen) => Scan(s) == Hit(i + 1, elen) && 2 <= elen <= i + 1 && elen <= 4
    {
      assert s[..i + 1] == s[..i] + [s[i]];
      ScanResumes(S0CR1, s[..i], [s[i]], 0);
      assert s == s[..i + 1] + s[i + 1..];
      ScanResumes(S0CR1, s[..i + 1], s[i + 1..], 0);
      if Feed(state, s[i]).Found? {
        HitDelimitsTerminator(s);
      }
    }

    static lemma HitStands(data: string, rest: string)
      requires Scan(data).Hit?
      ensures Scan(data + rest) == Scan(data)
    {
      ScanResumes(S0CR1, data, rest, 0);
    }

    static lemma OneMoreRead(before: seq<nat>, issued: seq<nat>, held: string, rest: string, from: nat, pos: nat)
      requires ReadsWhileMissing(before, issued, held, rest, from)
      requires 0 <= pos - from <= |rest| && Scan(held + rest[..pos - from]).Miss?
      ensures ReadsWhileMissing(before, issued + [pos], held, rest, from)
    {
    }

    /** buf has been received: n bytes of what was to come had arrived before it. */
    static lemma Received(t: string, held: string, coming: string, n: nat, data: string, buf: string, rest: string)
      requires n <= |coming| && data == held + coming[..n] && data + (buf + rest) == t == held + coming
      ensures n + |buf| <= |coming| && data + buf == held + coming[..n + |buf|] && (data + buf) + rest == t
    {
      assert coming[n..] == t[|data|..] == buf + rest;
      assert coming[..n + |buf|] == coming[..n] + coming[n..][..|buf|];
    }

    /** Reads until the header is complete.  Every read was issued while what had arrived
        held no terminator, and nothing is lost or reordered. */
    method ReadHeader(peer: Peer) returns (rc: int)
      requires Valid() && Good() && peer.Valid() && |Wire(peer)| < SIZE_T
      modifies this`data, this`gpos, this`state, this`hdrEpos, this`hdrElen, this`fed, this`eof, this`failed, peer
      ensures Valid() && Good() && peer.Valid() && gpos == old(gpos)
      ensures Wire(peer) == old(Wire(peer)) && old(data) <= data
      ensures rc == 1 <==> Scan(old(Wire(peer))).Hit?
      ensures if rc == 1 then hdrElen > 0 else rc == peer.ending && peer.Rest() == "" && hdrElen == 0
      ensures ReadsWhileMissing(old(peer.issued), peer.issued, old(data), old(peer.Rest()), old(peer.pos))
    {
      hide Kept, Scan;
      ghost var t := Wire(peer);
      ghost var old1, old2, from := data, peer.Rest(), peer.pos;
      assert ReadsWhileMissing(peer.issued, peer.issued, old1, old2, from);
      hide ReadsWhileMissing;
      while true
        invariant Valid() && Good() && peer.Valid() && gpos == old(gpos)
        invariant Wire(peer) == t == old1 + old2 && old1 <= data
        invariant from <= peer.pos && peer.pos - from <= |old2| && data == old1 + old2[..peer.pos - from]
        invariant ReadsWhileMissing(old(peer.issued), peer.issued, old1, old2, from)
        decreases |peer.Rest()|
      {
        var found, epos, elen := HaveEnd();
        if found {
          HitStands(data, peer.Rest());
          return 1;
        }
        OneMoreRead(old(peer.issued), peer.issued, old1, old2, from, peer.pos);
        ghost var pos := peer.pos;
        var buf: string;
        rc, buf := peer.Receive(1024);
        Received(t, old1, old2, pos - from, data, buf, peer.Rest());
        if rc <= 0 {
          assert data == t;
          return rc;
        }
        KeptByAppend(data, data + buf, state, hdrEpos, hdrElen, fed);
        Write(buf);
      }
    }

    // ---- the body ------------------------------------------------------------------

    static lemma OneMoreShort(before: seq<nat>, issued: seq<nat>, held: nat, from: nat, wanted: int, pos: nat)
      requires ReadsWhileShort(before, issued, held, from, wanted) && from <= pos && held + (pos - from) < wanted
      ensures ReadsWhileShort(before, issued + [pos], held, from, wanted)
    {
    }

    /** How much read_body waits for, in size_t. */
    function Wanted(contentLength: nat): nat
      reads this
    {
      (hdrEpos + hdrElen + contentLength) % SIZE_T
    }

    /** Reads until `contentLength` body bytes are there.  No read is issued once they are,
        or at all if the sum wraps round or the stream has failed. */
    method ReadBody(peer: Peer, contentLength: nat) returns (rc: int)
      requires Valid() && !eof && peer.Valid() && |Wire(peer)| < SIZE_T && contentLength < SIZE_T
      modifies this`data, peer
      ensures Valid() && peer.Valid()
      ensures Wire(peer) == old(Wire(peer)) && old(data) <= data
      ensures failed || |old(data)| >= Wanted(contentLength) ==> data == old(data) && peer.issued == old(peer.issued)
      ensures failed ==> rc == ToInt(SIZE_T - 1 - (hdrEpos + hdrElen))
      ensures !failed ==>
                && ReadsWhileShort(old(peer.issued), peer.issued, |old(data)|, old(peer.pos), Wanted(contentLength))
                && if |old(Wire(peer))| >= Wanted(contentLength)
                   then |data| >= Wanted(contentLength) && rc == ToInt(|data| - (hdrEpos + hdrElen))
                   else rc == peer.ending && peer.Rest() == ""
    {
      KeptInside(data, state, hdrEpos, hdrElen, fed);
      hide ReadsWhileShort, Kept, Extent, ToInt;
      var bpos := hdrEpos + hdrElen;
      if contentLength <= 0 {
        NoReads(peer.issued, |data|, peer.pos, Wanted(contentLength));
        return ToInt(Extent() - bpos);
      }
      rc := AwaitBody(peer, (bpos + contentLength) % SIZE_T);
      if rc <= 0 {
        return rc;
      }
      rc := ToInt(Extent() - bpos);
    }

    /** The loop of read_body. */
    method AwaitBody(peer: Peer, wanted: nat) returns (rc: int)
      requires Valid() && !eof && peer.Valid() && |Wire(peer)| < SIZE_T && wanted < SIZE_T
      modifies this`data, peer
      ensures Valid() && peer.Valid() && Wire(peer) == old(Wire(peer)) && old(data) <= data
      ensures failed || |old(data)| >= wanted ==> rc > 0 && data == old(data) && peer.issued == old(peer.issued)
      ensures !failed ==>
                && ReadsWhileShort(old(peer.issued), peer.issued, |old(data)|, old(peer.pos), wanted)
                && (rc > 0 <==> |old(Wire(peer))| >= wanted)
                && if rc > 0 then |data| >= wanted else rc == peer.ending && peer.Rest() == ""
    {
      rc := 1;
      NoReads(peer.issued, |data|, peer.pos, wanted);
      hide ReadsWhileShort, Kept, Extent;
      while Extent() < wanted
        invariant Valid() && peer.Valid() && Wire(peer) == old(Wire(peer)) && old(data) <= data && rc > 0
        invariant peer.pos - old(peer.pos) == |data| - |old(data)|
        invariant ReadsWhileShort(old(peer.issued), peer.issued, |old(data)|, old(peer.pos), wanted)
        invariant failed || |old(data)| >= wanted ==> data == old(data) && peer.issued == old(peer.issued)
        decreases |peer.Rest()|
      {
        OneMoreShort(old(peer.issued), peer.issued, |old(data)|, old(peer.pos), wanted, peer.pos);
        ghost var before := data;
        rc := Fetch(peer, 2048);
        if rc <= 0 {
          return;
        }
        KeptByAppend(before, data, state, hdrEpos, hdrElen, fed);
      }
    }

    static lemma NoReads(issued: seq<nat>, held: nat, from: nat, wanted: int)
      ensures ReadsWhileShort(issued, issued, held, from, wanted)
    {
    }

    /** Everything after the header's end; nothing if the stream has failed. */
    method Body() returns (body: string)
      requires Valid()
      modifies this`gpos, this`eof, this`failed
      ensures Valid() && !eof && failed == old(failed)
      ensures gpos == if failed then old(gpos) else |data|
      ensures body == if failed then "" else data[hdrEpos + hdrElen..]
    {
      KeptInside(data, state, hdrEpos, hdrElen, fed);
      Seekg(hdrEpos + hdrElen);
      body := "";
      while Tellg() < Tellp()
        invariant Valid() && !eof && failed == old(failed)
        invariant if failed then gpos == old(gpos) && body == ""
                  else hdrEpos + hdrElen <= gpos && body == data[hdrEpos + hdrElen..gpos]
        decreases |data| - gpos
      {
        var buf := Readsome(2048);
        body := body + buf;
      }
    }

    // ---- the chunked body: the lambdas of read_chunked ----------------------------------
    // rc <= 0 stands for the IO_Exception; t is everything on the wire.

    method GetChar(peer: Peer, ghost t: string) returns (rc: int, ch: char)
      requires InBounds() && !eof && peer.Valid() && (failed || t == Wire(peer))
      modifies this`data, this`gpos, peer
      ensures InBounds() && peer.Valid() && |old(data)| <= |data|
      ensures failed ==> rc == peer.ending && peer.Rest() == "" && data == old(data) && gpos == old(gpos)
      ensures !failed ==>
                && t == Wire(peer)
                && (rc > 0 <==> old(gpos) < |t|)
                && if rc > 0 then gpos == old(gpos) + 1 && ch == t[old(gpos)]
                   else rc == peer.ending && gpos == old(gpos) == |data| == |t|
    {
      while Tellg() >= Tellp()
        invariant InBounds() && peer.Valid() && gpos == old(gpos) && |old(data)| <= |data|
        invariant if failed then data == old(data) else t == Wire(peer)
        decreases |peer.Rest()|, |t| - |data|
      {
        rc := Fetch(peer, 2048);
        if rc <= 0 {
          ch := '\0';
          return;
        }
      }
      rc, ch := 1, data[gpos];
      gpos := gpos + 1;
    }

    method CopyUnch(n: nat) returns (copied: string)
      requires Good() && gpos + n <= |data|
      modifies this`gpos
      ensures InBounds() && gpos == old(gpos) + n && copied == data[old(gpos)..gpos]
    {
      copied := "";
      var left: nat := n;
      while left > 0
        invariant InBounds() && gpos + left == old(gpos) + n && copied == data[old(gpos)..gpos]
        decreases left
      {
        var buf := Readsome(if left < 2048 then left else 2048);
        copied := copied + buf;
        left := left - |buf|;
      }
    }

    method ReadDat(peer: Peer, n: nat, ghost t: string) returns (rc: int)
      requires InBounds() && Good() && peer.Valid() && t == Wire(peer)
      modifies this`data, peer
      ensures InBounds() && peer.Valid() && t == Wire(peer) && |old(data)| <= |data|
      ensures rc > 0 <==> |t| - |old(data)| >= n
      ensures if rc > 0 then |data| == |old(data)| + n else rc == peer.ending && data == t
    {
      rc := 1;
      var left: nat := n;
      while left > 0
        invariant InBounds() && peer.Valid() && t == Wire(peer) && |old(data)| <= |data| && rc > 0
        invariant |data| + left == |old(data)| + n
        decreases left
      {
        rc := Fetch(peer, if left < 2048 then left else 2048);
        if rc <= 0 {
          return;
        }
        left := left - rc;
      }
    }

    /** Given the character just read: true at a line end, which is then consumed, with the
        LF of a CR LF. */
    method GotEol(peer: Peer, ch: char, ghost t: string) returns (rc: int, eol: bool)
      requires InBounds() && Good() && peer.Valid() && t == Wire(peer) && gpos > 0 && ch == t[gpos - 1]
      modifies this`data, this`gpos, peer
      ensures InBounds() && peer.Valid() && t == Wire(peer) && |old(data)| <= |data|
      ensures !IsEol(ch) ==> rc > 0 && !eol && gpos == old(gpos)
      ensures IsEol(ch) ==>
                match PastEol(t, old(gpos) - 1)
                case Some(next) => rc > 0 && eol && gpos == next
                case None => rc <= 0 && rc == peer.ending
    {
      rc := 1;
      if ch == '\r' {
        var next: char;
        rc, next := GetChar(peer, t);
        if rc <= 0 {
          return rc, false;
        }
        if next != '\n' {
          gpos := gpos - 1;
        }
        return rc, true;
      }
      eol := ch == '\n';
    }

    /** The loop that reads a chunk's size. */
    method ReadSize(peer: Peer, ghost t: string) returns (rc: int, size: nat)
      requires InBounds() && !eof && peer.Valid() && (failed || t == Wire(peer))
      modifies this`data, this`gpos, peer
      ensures InBounds() && peer.Valid() && |old(data)| <= |data|
      ensures failed ==> rc == peer.ending && peer.Rest() == "" && data == old(data) && gpos == old(gpos)
      ensures !failed ==>
                && t == Wire(peer)
                && match SizeLine(t, old(gpos), 0)
                   case Some((n, next)) => rc > 0 && size == n && gpos == next
                   case None => rc <= 0 && rc == peer.ending
    {
      size := 0;
      while true
        invariant InBounds() && peer.Valid() && |old(data)| <= |data|
        invariant if failed then data == old(data) && gpos == old(gpos)
                  else t == Wire(peer) && SizeLine(t, old(gpos), 0) == SizeLine(t, gpos, size)
        decreases |t| - gpos
      {
        var ch: char, eol: bool;
        rc, ch := GetChar(peer, t);
        if rc <= 0 {
          return;
        }
        if '0' <= ch <= '9' {
          size := size * 10 + ch as int % 16;
        } else if 'a' <= ch <= 'f' || 'A' <= ch <= 'F' {
          size := size * 10 + ch as int % 16 + 9;
        } else {
          rc, eol := GotEol(peer, ch, t);
          if rc <= 0 || eol {
            return;
          }
        }
      }
    }

    /** Copies one chunk's data: first what has arrived, then the rest as it is read.  If
        the wire ends first, only the part that had arrived may have been copied. */
    method CopyChunk(peer: Peer, size: nat, ghost t: string) returns (rc: int, copied: string)
      requires InBounds() && Good() && peer.Valid() && t == Wire(peer)
      modifies this`data, this`gpos, peer
      ensures InBounds() && peer.Valid() && t == Wire(peer) && |old(data)| <= |data|
      ensures rc > 0 <==> |t| - old(gpos) >= size
      ensures if rc > 0 then gpos == old(gpos) + size && copied == t[old(gpos)..gpos]
              else rc == peer.ending && copied <= t[old(gpos)..]
    {
      rc, copied := 1, "";
      var size := size;
      var have := |data| - gpos;
      if have > 0 {
        if have > size {
          have := size;
        }
        copied := CopyUnch(have);
        size := size - have;
        assert data[old(gpos)..gpos] == t[old(gpos)..gpos];
      }
      if size > 0 {
        rc := ReadDat(peer, size, t);
        if rc <= 0 {
          assert copied == t[old(gpos)..][..|copied|];
          return;
        }
        var rest := CopyUnch(size);
        copied := copied + rest;
        assert copied == t[old(gpos)..gpos];
      }
    }

    /** The line end after a chunk's data: one character at least is dropped. */
    method EatEol(peer: Peer, ghost t: string) returns (rc: int)
      requires InBounds() && Good() && peer.Valid() && t == Wire(peer)
      modifies this`data, this`gpos, peer
      ensures InBounds() && peer.Valid() && t == Wire(peer) && |old(data)| <= |data|
      ensures match PastData(t, old(gpos))
              case Some(next) => rc > 0 && gpos == next
              case None => rc <= 0 && rc == peer.ending
    {
      var ch: char, eol: bool;
      rc, ch := GetChar(peer, t);
      if rc > 0 {
        rc, eol := GotEol(peer, ch, t);
      }
    }

    /** Skips the trailer part and its empty line. */
    method SkipTrailer(peer: Peer, ghost t: string) returns (rc: int)
      requires InBounds() && Good() && peer.Valid() && t == Wire(peer)
      modifies this`data, this`gpos, peer
      ensures InBounds() && peer.Valid() && t == Wire(peer) && |old(data)| <= |data|
      ensures match PastTrailer(t, old(gpos))
              case Some(end) => rc > 0 && gpos == end
              case None => rc <= 0 && rc == peer.ending
    {
      while true
        invariant InBounds() && peer.Valid() && t == Wire(peer) && |old(data)| <= |data|
        invariant PastTrailer(t, old(gpos)) == PastTrailer(t, gpos)
        decreases |t| - gpos
      {
        var ch: char, eol: bool;
        rc, ch := GetChar(peer, t);
        if rc <= 0 {
          return;
        }
        rc, eol := GotEol(peer, ch, t);
        if rc <= 0 || eol {
          return;
        }
        rc := SkipLine(peer, t);
        if rc <= 0 {
          return;
        }
      }
    }

    /** Skips the rest of a line. */
    method SkipLine(peer: Peer, ghost t: string) returns (rc: int)
      requires InBounds() && Good() && peer.Valid() && t == Wire(peer)
      modifies this`data, this`gpos, peer
      ensures InBounds() && peer.Valid() && t == Wire(peer) && |old(data)| <= |data|
      ensures match PastLine(t, old(gpos))
              case Some(next) => rc > 0 && gpos == next
              case None => rc <= 0 && rc == peer.ending
    {
      while true
        invariant InBounds() && peer.Valid() && t == Wire(peer) && |old(data)| <= |data|
        invariant PastLine(t, old(gpos)) == PastLine(t, gpos)
        decreases |t| - gpos
      {
        var ch: char, eol: bool;
        rc, ch := GetChar(peer, t);
        if rc <= 0 {
          return;
        }
        rc, eol := GotEol(peer, ch, t);
        if rc <= 0 || eol {
          return;
        }
      }
    }

    /** Main result for read_chunked: whatever has arrived already and however the rest
        arrives, it succeeds exactly when the one-pass decoder of the whole wire does, with
        the decoder's body, trailer position and end; when the wire ends too early, what it
        has put out is a prefix of what the decoder has, and at most the trailer's start is
        recorded, its length never.  On a stream that has failed the peer is read to its end
        and nothing is kept.  `completed` tells success from failure: the return value does
        not, as 0 is both an empty body and end of file. */
    method ReadChunked(peer: Peer, unchunked: string) returns (rc: int, out: string, ghost completed: bool)
      requires Valid() && !eof && peer.Valid()
      modifies this`data, this`gpos, this`hdrChunked, this`hdrChunklen, peer
      ensures Valid() && peer.Valid() && old(data) <= data
      ensures failed ==>
                && !completed && rc == peer.ending && peer.Rest() == "" && out == unchunked
                && data == old(data) && gpos == old(gpos)
                && hdrChunked == old(hdrChunked) && hdrChunklen == old(hdrChunklen)
      ensures !failed ==>
                Wire(peer) == old(Wire(peer)) && (completed <==> Decode(old(Wire(peer)), old(gpos)).Done?)
      ensures completed ==>
                var Done(body, trailer, end) := Decode(old(Wire(peer)), old(gpos));
                && rc == ToInt(|out|) && out == unchunked + body
                && hdrChunked == trailer && hdrChunklen == ToShort(end - trailer) && gpos == end
      ensures !failed && !completed ==>
                var Starved(body, last) := Decode(old(Wire(peer)), old(gpos));
                && rc == peer.ending && unchunked <= out <= unchunked + body
                && hdrChunklen == old(hdrChunklen)
                && hdrChunked == (if last.Some? then last.value else old(hdrChunked))
    {
      ghost var t := Wire(peer);
      ghost var whole := Decode(t, gpos);
      rc, out, completed := ReadChunks(peer, unchunked, t);
      if !failed {
        StillKept(old(data), t, data, state, hdrEpos, hdrElen, fed);
      }
    }

    /** The try block of read_chunked. */
    method ReadChunks(peer: Peer, unchunked: string, ghost t: string)
      returns (rc: int, out: string, ghost completed: bool)
      requires InBounds() && !eof && peer.Valid() && t == Wire(peer)
      modifies this`data, this`gpos, this`hdrChunked, this`hdrChunklen, peer
      ensures InBounds() && peer.Valid() && |old(data)| <= |data|
      ensures failed ==>
                && !completed && rc == peer.ending && peer.Rest() == "" && out == unchunked
                && data == old(data) && gpos == old(gpos)
                && hdrChunked == old(hdrChunked) && hdrChunklen == old(hdrChunklen)
      ensures !failed ==> t == Wire(peer)
      ensures completed ==>
                && Append(unchunked, Decode(t, old(gpos))) == Done(out, hdrChunked, gpos)
                && rc == ToInt(|out|) && hdrChunked <= gpos && hdrChunklen == ToShort(gpos - hdrChunked)
      ensures !failed && !completed ==>
                && rc == peer.ending && hdrChunklen == old(hdrChunklen)
                && StoppedShort(unchunked, Decode(t, old(gpos)), out)
                && hdrChunked == (if Decode(t, old(gpos)).last.Some? then Decode(t, old(gpos)).last.value
                                  else old(hdrChunked))
    {
      hide Decode, Peer.Valid;
      ghost var whole := Decode(t, gpos);
      completed := false;
      rc, out := CopyChunks(peer, unchunked, t);
      if rc <= 0 {
        return;
      }
      hdrChunked := gpos;
      rc := SkipTrailer(peer, t);
      if rc <= 0 {
        StopsShort(unchunked, whole, out, LastPart(t, hdrChunked), "");
        return;
      }
      AppendLast(out, hdrChunked, gpos);
      hdrChunklen := ToShort(gpos - hdrChunked);
      rc, completed := ToInt(|out|), true;
    }

    /** The chunk loop, up to and including the size line of the chunk of size 0. */
    method CopyChunks(peer: Peer, unchunked: string, ghost t: string) returns (rc: int, out: string)
      requires InBounds() && !eof && peer.Valid() && t == Wire(peer)
      modifies this`data, this`gpos, peer
      ensures InBounds() && peer.Valid() && |old(data)| <= |data|
      ensures failed ==>
                && rc == peer.ending && peer.Rest() == "" && out == unchunked
                && data == old(data) && gpos == old(gpos)
      ensures !failed ==> t == Wire(peer)
      ensures rc > 0 ==> Decoding(unchunked, Decode(t, old(gpos)), out, LastPart(t, gpos))
      ensures !failed && rc <= 0 ==>
                && rc == peer.ending && StoppedShort(unchunked, Decode(t, old(gpos)), out)
                && Decode(t, old(gpos)).last.None?
    {
      ghost var whole := Decode(t, gpos);
      rc, out := 1, unchunked;
      var more := true;
      while more
        invariant InBounds() && peer.Valid() && |old(data)| <= |data| && rc > 0
        invariant t == Wire(peer) && (failed ==> more && out == unchunked && data == old(data) && gpos == old(gpos))
        invariant Decoding(unchunked, whole, out, if more then Decode(t, gpos) else LastPart(t, gpos))
        decreases more, |t| - gpos
      {
        ghost var before, rest := out, Decode(t, gpos);
        var part: string;
        rc, more, part := ReadChunk(peer, t);
        if failed {
          assert out + part == unchunked;
        }
        out := out + part;
        if rc <= 0 {
          if !failed {
            StopsShort(unchunked, whole, before, rest, part);
          }
          return;
        }
        if more {
          GoesOn(unchunked, whole, before, part, Decode(t, gpos));
        } else {
          assert out == before;
        }
      }
    }

    static lemma AppendLast(out: string, start: nat, end: nat)
      ensures Append(out, Done("", start, end)) == Done(out, start, end)
    {
      assert out + "" == out;
    }

    static lemma StillKept(before: string, t: string, after: string, state: State, hdrEpos: nat, hdrElen: nat, fed: nat)
      requires before <= t && after <= t && |before| <= |after|
      requires Kept(before, state, hdrEpos, hdrElen, fed)
      ensures before <= after && Kept(after, state, hdrEpos, hdrElen, fed)
    {
      assert before == t[..|before|] && after == t[..|after|];
      KeptByAppend(before, after, state, hdrEpos, hdrElen, fed);
    }

    /** So far `out` has been put out, and `rest` is what is left to decode. */
    static ghost predicate Decoding(unchunked: string, whole: Decoded, out: string, rest: Decoded) {
      Append(unchunked, whole) == Append(out, rest) && unchunked <= out
    }

    /** The text has ended first: what has been put out is part of what the decoder has. */
    static ghost predicate StoppedShort(unchunked: string, whole: Decoded, out: string) {
      whole.Starved? && unchunked <= out <= unchunked + whole.body
    }

    static lemma StopsShort(unchunked: string, whole: Decoded, out: string, rest: Decoded, part: string)
      requires Decoding(unchunked, whole, out, rest) && rest.Starved? && part <= rest.body
      ensures StoppedShort(unchunked, whole, out + part) && whole.last == rest.last
    {
      assert unchunked + whole.body == out + rest.body;
    }

    static lemma GoesOn(unchunked: string, whole: Decoded, out: string, part: string, rest: Decoded)
      requires Decoding(unchunked, whole, out, Append(part, rest))
      ensures Decoding(unchunked, whole, out + part, rest)
    {
      assert out + (part + rest.body) == (out + part) + rest.body;
    }

    /** The body of the chunk loop: `more` is false at the chunk of size 0. */
    method ReadChunk(peer: Peer, ghost t: string) returns (rc: int, more: bool, part: string)
      requires InBounds() && !eof && peer.Valid() && t == Wire(peer)
      modifies this`data, this`gpos, peer
      ensures InBounds() && peer.Valid() && |old(data)| <= |data|
      ensures failed ==>
                && rc == peer.ending && peer.Rest() == "" && part == ""
                && data == old(data) && gpos == old(gpos)
      ensures !failed ==> t == Wire(peer)
      ensures !failed && rc <= 0 ==>
                && rc == peer.ending && Decode(t, old(gpos)).Starved?
                && part <= Decode(t, old(gpos)).body && Decode(t, old(gpos)).last.None?
      ensures rc > 0 && more ==> gpos > old(gpos) && Decode(t, old(gpos)) == Append(part, Decode(t, gpos))
      ensures rc > 0 && !more ==>
                && part == ""
                && Decode(t, old(gpos)) == LastPart(t, gpos)
    {
      more, part := true, "";
      ghost var from := gpos;
      var size: nat;
      rc, size := ReadSize(peer, t);
      if rc <= 0 {
        if !failed {
          DecodeWithoutSize(t, from);
        }
        return;
      }
      ghost var start := gpos;
      if size == 0 {
        DecodeLast(t, from, start);
        more := false;
        return;
      }
      rc, part := CopyChunk(peer, size, t);
      if rc <= 0 {
        DecodeShortOfData(t, from, size, start);
        return;
      }
      ghost var end := gpos;
      rc := EatEol(peer, t);
      if rc <= 0 {
        DecodeShortOfEol(t, from, size, start);
        return;
      }
      DecodeSteps(t, from, size, start, end, gpos);
    }

    // ---- header lines ---------------------------------------------------------------------

    /** What parsing from here will yield, given the stream's state bits. */
    ghost function Ahead(limit: Option<int>, maxhdr: nat): Parsed
      requires InBounds() && maxhdr >= 1
      reads this
    {
      if Good() then ReadFields(data, gpos, limit, maxhdr) else Parsed([], gpos, eof, true)
    }

    /** read_line: the next line up to its line end, and false at the end of the lines, at
        the limit, or when the stream fails. */
    method ReadLine(limit: Option<int>, maxhdr: nat) returns (line: string, ok: bool)
      requires InBounds() && maxhdr >= 1
      modifies this`gpos, this`eof, this`failed
      ensures InBounds()
      ensures ok ==>
                && Collected(old(Ahead(limit, maxhdr)), [ParseField(line)], Ahead(limit, maxhdr))
                && old(Good()) && old(gpos) <= gpos && (Good() ==> old(gpos) < gpos)
      ensures !ok ==> old(Ahead(limit, maxhdr)) == Parsed([], gpos, eof, failed)
      ensures old(Good()) && limit.None? ==>
                var l := GetLine(data, old(gpos), maxhdr);
                && line == Cut(l.text) && gpos == l.next && eof == l.eof && failed == l.failed
                && (ok <==> line != "" && !l.failed)
    {
      line, ok := "", false;
      if eof || failed {
        failed := true;
        return;
      }
      if limit.Some? && gpos >= limit.value {
        return;
      }
      var l := GetLine(data, gpos, maxhdr);
      gpos, eof, failed := l.next, l.eof, l.failed;
      line := Cut(l.text);
      ok := line != "" && !l.failed;
    }

    /** The loop over header lines of parse_headers and, with the check for forbidden
        names, of parse_xheaders. */
    method AddFields(headers: multiset<Field>, checked: bool, limit: Option<int>, maxhdr: nat)
      returns (headers': multiset<Field>, added: bool)
      requires InBounds() && maxhdr >= 1
      modifies this`gpos, this`eof, this`failed
      ensures InBounds()
      ensures var fields := old(Ahead(limit, maxhdr)).fields;
              && old(Ahead(limit, maxhdr)) == Parsed(fields, gpos, eof, failed)
              && AddedTo(headers, headers', added, fields, checked)
    {
      hide Collected, AddedTo, ReadFields, ParseField;
      headers', added := headers, false;
      ghost var whole, done, ahead := Ahead(limit, maxhdr), [], Ahead(limit, maxhdr);
      NoneAdded(headers, whole, checked);
      var line, ok := ReadLine(limit, maxhdr);
      while ok
        invariant InBounds()
        invariant Collected(whole, done, ahead)
        invariant ok ==> Collected(ahead, [ParseField(line)], Ahead(limit, maxhdr))
        invariant !ok ==> ahead == Parsed([], gpos, eof, failed)
        invariant AddedTo(headers, headers', added, done, checked)
        decreases ok, if Good() then |data| - gpos + 1 else 0
      {
        var f := ParseField(line);
        headers', added := AddField(headers, headers', added, done, f, checked);
        CollectedOneMore(whole, done, f, ahead, Ahead(limit, maxhdr));
        done, ahead := done + [f], Ahead(limit, maxhdr);
        line, ok := ReadLine(limit, maxhdr);
      }
      CollectedAll(whole, done, ahead);
    }

    static lemma NoneAdded(headers: multiset<Field>, whole: Parsed, checked: bool)
      ensures Collected(whole, [], whole) && AddedTo(headers, headers, false, [], checked)
    {
      assert [] + whole.fields == whole.fields;
    }

    /** The body of the loop: one more field, unless it is checked and forbidden. */
    static method AddField(ghost before: multiset<Field>, headers: multiset<Field>, added: bool,
                           ghost done: seq<Field>, f: Field, checked: bool)
      returns (headers': multiset<Field>, added': bool)
      requires AddedTo(before, headers, added, done, checked)
      ensures AddedTo(before, headers', added', done + [f], checked)
    {
      hide AddedTo;
      headers', added' := headers, added;
      AddedOneMore(before, headers, added, done, f, checked);
      if !(checked && Forbidden(f.name)) {
        headers', added' := headers' + multiset{f}, true;
      }
    }

    /** Of these fields, those the loop adds have been added. */
    static ghost predicate AddedTo(headers: multiset<Field>, headers': multiset<Field>, added: bool,
                                   fields: seq<Field>, checked: bool)
    {
      headers' == headers + multiset(Added(fields, checked)) && (added <==> Added(fields, checked) != [])
    }

    /** The fields that the loop adds. */
    static function Added(fields: seq<Field>, checked: bool): seq<Field> {
      if checked then Allowed(fields) else fields
    }

    static lemma AddedOneMore(headers: multiset<Field>, headers': multiset<Field>, added: bool,
                              fields: seq<Field>, f: Field, checked: bool)
      requires AddedTo(headers, headers', added, fields, checked)
      ensures if checked && Forbidden(f.name) then AddedTo(headers, headers', added, fields + [f], checked)
              else AddedTo(headers, headers' + multiset{f}, true, fields + [f], checked)
    {
      var drop := checked && Forbidden(f.name);
      var more := if drop then [] else [f];
      AddedSplits(fields, f, checked, drop);
      assert Added(fields + [f], checked) == Added(fields, checked) + more;
      if drop {
        assert Added(fields, checked) + [] == Added(fields, checked);
      }
    }

    static lemma AddedSplits(fields: seq<Field>, f: Field, checked: bool, drop: bool)
      requires drop == (checked && Forbidden(f.name))
      ensures Added(fields + [f], checked) == Added(fields, checked) + if drop then [] else [f]
    {
      AllowedAppend(fields, [f]);
      assert [f][1..] == [];
      assert Allowed([f]) == (if Forbidden(f.name) then [] else [f]) + Allowed([]);
    }

    static lemma CollectedAll(whole: Parsed, done: seq<Field>, ahead: Parsed)
      requires Collected(whole, done, ahead) && ahead.fields == []
      ensures whole == ahead.(fields := done)
    {
      assert done + [] == done;
    }

    /** The fields `done` and what is ahead make up the whole. */
    static ghost predicate Collected(whole: Parsed, done: seq<Field>, ahead: Parsed) {
      whole == ahead.(fields := done + ahead.fields)
    }

    static lemma CollectedOneMore(whole: Parsed, done: seq<Field>, f: Field, ahead: Parsed, next: Parsed)
      requires Collected(whole, done, ahead) && Collected(ahead, [f], next)
      ensures Collected(whole, done + [f], next)
    {
      assert done + ([f] + next.fields) == (done + [f]) + next.fields;
    }

    /** Reads the head and leaves the cursor at the start of the body.  The headers found
        are added; without a Content-Length the result is 0, with one it is its value
        (of an unspecified one, when there are several). */
    method ParseHeaders(request: Request, headers: multiset<Field>, maxhdr: nat)
      returns (length: nat, request': Request, headers': multiset<Field>)
      requires Valid() && Good() && maxhdr >= 1
      modifies this`gpos, this`eof, this`failed
      ensures var head := ParseHead(data, maxhdr);
              && request' == (if head.request.Some? then head.request.value else request)
              && headers' == headers + multiset(head.parsed.fields)
              && failed == head.parsed.failed
      ensures Valid() && !eof && (!failed ==> gpos == hdrEpos + hdrElen)
      ensures !HasField(headers', "CONTENT-LENGTH") ==> length == 0
      ensures HasField(headers', "CONTENT-LENGTH") ==>
                exists f :: f in headers' && Finds(f.name, "CONTENT-LENGTH") && length == StrToUl(f.value)
    {
      hide ParseHead, Kept, HasField, Finds, StrToUl;
      request', headers' := ReadHead(request, headers, maxhdr);
      length := ContentLength(headers');
    }

    /** The lines of the head, and the cursor to the body. */
    method ReadHead(request: Request, headers: multiset<Field>, maxhdr: nat)
      returns (request': Request, headers': multiset<Field>)
      requires Valid() && Good() && maxhdr >= 1
      modifies this`gpos, this`eof, this`failed
      ensures var head := ParseHead(data, maxhdr);
              && request' == (if head.request.Some? then head.request.value else request)
              && headers' == headers + multiset(head.parsed.fields)
              && failed == head.parsed.failed
      ensures Valid() && !eof && (!failed ==> gpos == hdrEpos + hdrElen)
    {
      KeptInside(data, state, hdrEpos, hdrElen, fed);
      hide ParseHead, Kept;
      request', headers' := ReadLines(request, headers, maxhdr);
      Seekg(hdrEpos + hdrElen);
    }

    /** The request line and the fields. */
    method ReadLines(request: Request, headers: multiset<Field>, maxhdr: nat)
      returns (request': Request, headers': multiset<Field>)
      requires InBounds() && Good() && maxhdr >= 1
      modifies this`gpos, this`eof, this`failed
      ensures InBounds()
      ensures var head := ParseHead(data, maxhdr);
              && request' == (if head.request.Some? then head.request.value else request)
              && headers' == headers + multiset(head.parsed.fields)
              && failed == head.parsed.failed
    {
      request', headers' := request, headers;
      Seekg(0);
      var line, ok := ReadLine(None, maxhdr);
      if ok {
        request' := ParseRequest(line);
        var added: bool;
        headers', added := AddFields(headers, false, None, maxhdr);
      }
    }

    static method ContentLength(headers: multiset<Field>) returns (length: nat)
      ensures !HasField(headers, "CONTENT-LENGTH") ==> length == 0
      ensures HasField(headers, "CONTENT-LENGTH") ==>
                exists f :: f in headers && Finds(f.name, "CONTENT-LENGTH") && length == StrToUl(f.value)
    {
      length := 0;
      if f :| f in headers && Finds(f.name, "CONTENT-LENGTH") {
        length := StrToUl(f.value);
      }
    }

    /** Where the recorded trailer region ends, in size_t. */
    function TrailerEnd(): int
      reads this
    {
      (hdrChunked + hdrChunklen) % SIZE_T
    }

    /** What parsing the recorded trailer region yields. */
    ghost function Trailer(maxhdr: nat): Parsed
      requires maxhdr >= 1
      reads this
    {
      if hdrChunked <= |data| then ReadFields(data, hdrChunked, Some(TrailerEnd()), maxhdr)
      else Parsed([], gpos, false, true)
    }

    /** Adds the trailer part's fields that are not forbidden and reports whether there
        were any.  The cursor is put back.  A position left from an earlier request may lie
        beyond the contents: then the stream fails.  On a failed stream nothing is added. */
    method ParseXHeaders(headers: multiset<Field>, maxhdr: nat) returns (found: bool, headers': multiset<Field>)
      requires InBounds() && !eof && maxhdr >= 1
      modifies this`gpos, this`eof, this`failed
      ensures InBounds()
      ensures hdrChunked == 0 ==> !found && headers' == headers && !eof && failed == old(failed)
      ensures !old(failed) && 0 < hdrChunked <= |data| ==>
                && AddedTo(headers, headers', found, old(Trailer(maxhdr)).fields, true)
                && failed == old(Trailer(maxhdr)).failed
      ensures old(failed) || hdrChunked > |data| ==> !found && headers' == headers && failed
      ensures !failed || old(failed) || hdrChunked > |data| ==> !eof && gpos == old(gpos)
    {
      if hdrChunked <= 0 {
        return false, headers;
      }
      ghost var parsed := Trailer(maxhdr);
      var svgpos, limit := gpos, Some(TrailerEnd());
      Seekg(hdrChunked);
      assert !old(failed) ==> Ahead(limit, maxhdr) == parsed;
      headers', found := AddFields(headers, true, limit, maxhdr);
      Seekg(svgpos);
    }
  }

  /** Every new read was issued when what had arrived -- `held` and the bytes of `rest`
      up to that read -- contained no reported terminator. */
  ghost predicate ReadsWhileMissing(before: seq<nat>, after: seq<nat>, held: string, rest: string, from: nat) {
    before <= after &&
    forall k :: |before| <= k < |after| ==>
      0 <= after[k] - from <= |rest| && Scan(held + rest[..after[k] - from]).Miss?
  }

  /** Every new read was issued while fewer than `wanted` bytes had arrived. */
  ghost predicate ReadsWhileShort(before: seq<nat>, after: seq<nat>, held: nat, from: nat, wanted: int) {
    before <= after &&
    forall k :: |before| <= k < |after| ==> from <= after[k] && held + (after[k] - from) < wanted
  }
}
