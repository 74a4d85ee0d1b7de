/** One round of the server's request loop (server.cpp): the reader's operations put
    together, on requests as a conforming client prints them. */
module Messages {
  import opened CStrings
  import opened CaseFold
  import opened Chunked
  import opened HeaderEnd
  import opened HeaderText
  import opened HttpBufs
  import opened Options
  import opened Peers

  /** Field k alone announces the length n. */
  ghost predicate SoleLength(fields: seq<Field>, k: nat, n: nat) {
    && k < |fields| && fields[k].value == Decimal(n)
    && forall j :: 0 <= j < |fields| ==> (Finds(fields[j].name, "CONTENT-LENGTH") <==> j == k)
  }

  /** What parse_headers makes of an announced length, in size_t. */
  function Saturated(n: nat): nat { if n < SIZE_T then n else SIZE_T - 1 }

  ghost predicate Announces(headers: multiset<Field>, length: nat) {
    if HasField(headers, "CONTENT-LENGTH") then
      exists f :: f in headers && Finds(f.name, "CONTENT-LENGTH") && length == StrToUl(f.value)
    else length == 0
  }

  lemma LengthIsRead(fields: seq<Field>, k: nat, n: nat, length: nat)
    requires SoleLength(fields, k, n) && Announces(multiset(fields), length)
    ensures length == Saturated(n)
  {
    hide StrToUl, Decimal;
    var headers := multiset(fields);
    assert fields[k] in headers;
    var f :| f in headers && Finds(f.name, "CONTENT-LENGTH") && length == StrToUl(f.value);
    assert f in fields;
    var j :| 0 <= j < |fields| && fields[j] == f;
    StrToUlInvertsDecimal(n);
  }

  /** What comes of a head of plain text whose lines fit the buffer. */
  ghost predicate HeadRead(request: Request, headers: multiset<Field>, r: Request, fields: seq<Field>) {
    request == ParseRequest(PrintRequest(r)) && headers == multiset(AllRead(fields))
  }

  /** The fields of a head that stand before its first line that is too long, as they are
      read. */
  function ReadBeforeLong(r: Request, fields: seq<Field>, eol: string, maxhdr: nat): seq<Field> {
    if Short(PrintRequest(r), eol, maxhdr) then AllRead(BeforeLong(fields, eol, maxhdr)) else []
  }

  /** Reading the head of the next request, of any plain text.  If every line fits the
      buffer, the request line and the fields come out as the parser reads them and the
      cursor stands at the first byte after the empty line; and otherwise, and only then,
      the stream has failed, and the headers are those before the long line.  No read is
      issued once the head is there. */
  method ReceiveHead(buf: HttpBuf, peer: Peer, maxhdr: nat, ghost r: Request, ghost fields: seq<Field>,
                     ghost eol: string)
    returns (length: nat, request: Request, headers: multiset<Field>)
    requires peer.Valid() && |peer.Rest()| < SIZE_T && maxhdr >= 1
    requires LineEnd(eol) && PlainRequest(r) && PlainFields(fields) && PrintHead(r, fields, eol) <= peer.Rest()
    modifies buf, peer
    ensures buf.Valid() && !buf.eof && peer.Valid() && buf.Wire(peer) == old(peer.Rest())
    ensures ReadsWhileMissing(old(peer.issued), peer.issued, "", old(peer.Rest()), old(peer.pos))
    ensures buf.hdrEpos + buf.hdrElen == |PrintHead(r, fields, eol)| && PrintHead(r, fields, eol) <= buf.data
    ensures buf.failed <==> !ShortHead(r, fields, eol, maxhdr)
    ensures buf.failed ==> headers == multiset(ReadBeforeLong(r, fields, eol, maxhdr))
    ensures !buf.failed ==> HeadRead(request, headers, r, fields) && buf.gpos == |PrintHead(r, fields, eol)|
    ensures Announces(headers, length) && length < SIZE_T
  {
    hide ParseHead, ShortFields, PlainRequest, PlainFields, AllRead, PrintHead, HasField, Scan, ReadsWhileMissing,
         StrToUl, HttpBuf.Kept, PrintRequest, ParseRequest;
    ghost var t, head := peer.Rest(), PrintHead(r, fields, eol);
    buf.Reset();
    assert "" + t == t;
    PrintedHeadEnds(t, r, fields, eol);
    var rc := buf.ReadHeader(peer);
    HttpBuf.KeptHit(buf.data, buf.state, buf.hdrEpos, buf.hdrElen, buf.fed);
    HeadArrived(t, head, buf.data, peer.Rest());
    ParseInvertsPrint(buf.data, r, fields, eol, maxhdr);
    length, request, headers := buf.ParseHeaders(Request("", "", ""), multiset{}, maxhdr);
    assert multiset{} + headers == headers;
  }

  lemma HeadArrived(t: string, head: string, data: string, rest: string)
    requires data + rest == t && head <= t && Scan(data).Hit? && Scan(t).Hit? && Scan(t).end == |head|
    ensures Scan(data) == Scan(t) && head <= data
  {
    ScanResumes(S0CR1, data, rest, 0);
    assert data == t[..|data|] && head == t[..|head|];
  }

  /** A request that is not chunked, with any plain head.  If that fits the buffer, the body
      handed out is all that has arrived behind it.  Without a Content-Length nothing is
      read for it; with one, of n bytes, reading goes on until n bytes are there or the
      peer has ended -- unless the head's length and n together pass the width of a size_t:
      then nothing is read.  If the head does not fit, the body is empty and nothing is
      read for it. */
  method ReceiveRequest(buf: HttpBuf, peer: Peer, maxhdr: nat,
                        ghost r: Request, ghost fields: seq<Field>, ghost eol: string, ghost k: nat, ghost n: nat)
    returns (request: Request, headers: multiset<Field>, body: string)
    requires peer.Valid() && |peer.Rest()| < SIZE_T && maxhdr >= 1
    requires LineEnd(eol) && PlainRequest(r) && PlainFields(fields) && PrintHead(r, fields, eol) <= peer.Rest()
    modifies buf, peer
    ensures peer.Valid() && (buf.failed <==> !ShortHead(r, fields, eol, maxhdr))
    ensures !buf.failed ==>
              && HeadRead(request, headers, r, fields)
              && PrintHead(r, fields, eol) + body + peer.Rest() == old(peer.Rest())
    ensures buf.failed ==> body == "" && headers == multiset(ReadBeforeLong(r, fields, eol, maxhdr))
    ensures buf.failed || !HasField(headers, "CONTENT-LENGTH") ||
            (SoleLength(AllRead(fields), k, n) && |PrintHead(r, fields, eol)| + n >= SIZE_T) ==>
              ReadsWhileMissing(old(peer.issued), peer.issued, "", old(peer.Rest()), old(peer.pos))
    ensures !buf.failed && SoleLength(AllRead(fields), k, n) && |PrintHead(r, fields, eol)| + n < SIZE_T ==>
              |body| >= n || peer.Rest() == ""
  {
    hide ShortHead, PlainRequest, PlainFields, AllRead, SoleLength, ParseHead, PrintHead, ReadsWhileMissing, HasField,
         Announces, HeadRead, Saturated, HttpBuf.Kept;
    ghost var t, head := peer.Rest(), PrintHead(r, fields, eol);
    var length: nat;
    length, request, headers := ReceiveHead(buf, peer, maxhdr, r, fields, eol);
    LengthWaitedFor(request, headers, length, r, fields, k, n, buf.failed);
    HeadIsSome(r, fields, eol);
    WaitedFor(|head|, n, |buf.data|);
    body := ReceiveBody(buf, peer, length, t, head);
  }

  /** What has arrived behind the head, and more of it up to the announced length. */
  method ReceiveBody(buf: HttpBuf, peer: Peer, length: nat, ghost t: string, ghost head: string)
    returns (body: string)
    requires buf.Valid() && !buf.eof && peer.Valid() && buf.Wire(peer) == t && |t| < SIZE_T && length < SIZE_T
    requires buf.hdrEpos + buf.hdrElen == |head| && head <= buf.data
    modifies buf, peer
    ensures peer.Valid() && buf.failed == old(buf.failed)
    ensures if buf.failed then body == "" && buf.data == old(buf.data) else head + body + peer.Rest() == t
    ensures !buf.failed ==> |head| + |body| >= (|head| + length) % SIZE_T || peer.Rest() == ""
    ensures buf.failed || (|head| + length) % SIZE_T <= |old(buf.data)| ==> peer.issued == old(peer.issued)
  {
    hide ToInt, ReadsWhileShort, HttpBuf.Kept;
    var rc := buf.ReadBody(peer, length);
    body := buf.Body();
    BodyIsRest(t, head, buf.data, peer.Rest());
  }

  /** The length that parse_headers hands on. */
  lemma LengthWaitedFor(request: Request, headers: multiset<Field>, length: nat, r: Request, fields: seq<Field>,
                        k: nat, n: nat, failed: bool)
    requires Announces(headers, length) && (!failed ==> HeadRead(request, headers, r, fields))
    ensures !HasField(headers, "CONTENT-LENGTH") ==> length == 0
    ensures !failed && SoleLength(AllRead(fields), k, n) ==> length == Saturated(n)
  {
    hide HasField, SoleLength, AllRead;
    if !failed && SoleLength(AllRead(fields), k, n) {
      LengthIsRead(AllRead(fields), k, n, length);
    }
  }

  /** What read_body waits for, in size_t, with `arrived` bytes there. */
  lemma WaitedFor(head: nat, n: nat, arrived: nat)
    requires 1 <= head <= arrived < SIZE_T
    ensures head % SIZE_T <= arrived
    ensures head + n < SIZE_T ==> (head + Saturated(n)) % SIZE_T == head + n
    ensures head + n >= SIZE_T ==> (head + Saturated(n)) % SIZE_T < arrived
  {
  }

  lemma HeadIsSome(r: Request, fields: seq<Field>, eol: string)
    ensures |PrintHead(r, fields, eol)| >= 1
  {
  }

  lemma BodyIsRest(t: string, head: string, data: string, rest: string)
    requires head <= t && data + rest == t && |head| <= |data|
    ensures head + data[|head|..] + rest == t
  {
    assert data == t[..|data|] && head == t[..|head|];
    assert head + data[|head|..] == data;
  }

  /** So a body that was sent whole comes out first. */
  lemma BodyIsSent(t: string, head: string, sent: string, body: string, rest: string)
    requires head + sent <= t && head + body + rest == t && (|body| >= |sent| || rest == "")
    ensures sent <= body
  {
    assert head + (body + rest) == t && t[|head|..] == body + rest;
    assert sent == t[|head|..][..|sent|];
  }

  /** A chunked request with any plain head, whatever follows it.  If the head fits the
      buffer, the body is the one-pass decoder's, and the trailer fields in the recorded
      region join the headers; if it does not, the peer is read to its end and nothing comes
      of it.  For a coding whose size lines are read as they are meant and whose trailer the
      computed end reaches, the body is the chunks' data, the headers are joined by all the
      trailer fields that are not forbidden, and the cursor ends exactly where the next
      request starts. */
  method ReceiveChunkedRequest(buf: HttpBuf, peer: Peer, maxhdr: nat, ghost r: Request, ghost fields: seq<Field>,
                               ghost eol: string, ghost cs: seq<Chunk>, ghost last: string, ghost trailer: seq<Field>,
                               ghost next: string)
    returns (request: Request, headers: multiset<Field>, body: string, extended: bool)
    requires peer.Valid() && |peer.Rest()| < SIZE_T && maxhdr >= 1
    requires LineEnd(eol) && PlainRequest(r) && PlainFields(fields) && PrintHead(r, fields, eol) <= peer.Rest()
    modifies buf, peer
    ensures buf.InBounds() && peer.Valid()
    ensures !ShortHead(r, fields, eol, maxhdr) ==>
              && body == "" && !extended && peer.Rest() == "" && buf.failed
              && headers == multiset(ReadBeforeLong(r, fields, eol, maxhdr))
    ensures ShortHead(r, fields, eol, maxhdr) ==>
              && request == ParseRequest(PrintRequest(r)) && buf.Wire(peer) == old(peer.Rest())
              && BodyDecoded(old(peer.Rest()), |PrintHead(r, fields, eol)|, body, buf)
              && TrailerAdded(multiset(AllRead(fields)), headers, extended, buf, maxhdr)
    ensures ShortHead(r, fields, eol, maxhdr) && GoodCoding(cs, last, trailer, eol, maxhdr)
            && ReachesLast(TrailerStart(|PrintHead(r, fields, eol)|, cs, last, eol), trailer, eol)
            && old(peer.Rest()) == PrintHead(r, fields, eol) + (Coded(cs, last, trailer, eol) + next) ==>
              && body == Body(cs) && buf.Good() && buf.Wire(peer)[buf.gpos..] == next
              && headers == multiset(AllRead(fields)) + multiset(Allowed(AllRead(trailer)))
              && (extended <==> Allowed(AllRead(trailer)) != [])
  {
    hide ShortFields, PlainFields, AllRead, ParseHead, PrintHead, GoodCoding, ReachesLast, BodyDecoded, TrailerAdded,
         Coded, TrailerStart, Allowed, ReadsWhileMissing, Announces;
    ghost var t, head := peer.Rest(), PrintHead(r, fields, eol);
    var length: nat;
    length, request, headers := ReceiveHead(buf, peer, maxhdr, r, fields, eol);
    ghost var fromHead := headers;
    body, extended, headers := ReceiveCoded(buf, peer, headers, maxhdr, t);
    if ShortHead(r, fields, eol, maxhdr) && GoodCoding(cs, last, trailer, eol, maxhdr)
       && ReachesLast(TrailerStart(|head|, cs, last, eol), trailer, eol)
       && t == head + (Coded(cs, last, trailer, eol) + next) {
      AfterPrefix(head, Coded(cs, last, trailer, eol) + next);
      CodedIsRead(t, |head|, cs, last, trailer, eol, next, buf, peer, body, fromHead, headers, extended, maxhdr);
    }
  }

  /** The body is the decoder's, and so are what is recorded of the trailer part and, if the
      stream is still good, the cursor. */
  ghost predicate BodyDecoded(t: string, i: nat, body: string, buf: HttpBuf)
    reads buf
  {
    && i <= |t| && buf.data <= t
    && match Decode(t, i)
       case Done(whole, trailer, end) =>
         && body == whole && buf.hdrChunked == trailer && buf.hdrChunklen == ToShort(end - trailer)
         && end <= |buf.data| && (!buf.failed ==> buf.Good() && buf.gpos == end)
       case Starved(whole, _) => body <= whole
  }

  /** The fields that are read in the recorded region have been added, if not forbidden. */
  ghost predicate TrailerAdded(headers: multiset<Field>, headers': multiset<Field>, extended: bool, buf: HttpBuf,
                               maxhdr: nat)
    requires maxhdr >= 1
    reads buf
  {
    if buf.hdrChunked == 0 then headers' == headers && !extended && !buf.failed
    else HttpBuf.AddedTo(headers, headers', extended, buf.Trailer(maxhdr).fields, true)
         && buf.failed == buf.Trailer(maxhdr).failed
  }

  /** The chunked body and its trailer fields. */
  method ReceiveCoded(buf: HttpBuf, peer: Peer, headers: multiset<Field>, maxhdr: nat, ghost t: string)
    returns (body: string, extended: bool, headers': multiset<Field>)
    requires buf.Valid() && !buf.eof && peer.Valid() && buf.Wire(peer) == t && maxhdr >= 1
    modifies buf, peer
    ensures buf.InBounds() && peer.Valid()
    ensures old(buf.failed) ==>
              && body == "" && !extended && headers' == headers && peer.Rest() == ""
              && buf.failed && buf.data == old(buf.data)
    ensures !old(buf.failed) ==>
              && buf.Wire(peer) == t && BodyDecoded(t, old(buf.gpos), body, buf)
              && TrailerAdded(headers, headers', extended, buf, maxhdr)
  {
    hide Decode, ReadFields, ToShort, HttpBuf.AddedTo, HttpBuf.Kept;
    var rc: int;
    ghost var completed: bool;
    rc, body, completed := buf.ReadChunked(peer, "");
    NothingBefore(Decode(t, old(buf.gpos)));
    HttpBuf.NoneAdded(headers, buf.Trailer(maxhdr), true);
    extended, headers' := buf.ParseXHeaders(headers, maxhdr);
  }

  /** Chunks the decoder reads as they are meant, and trailer fields whose lines fit. */
  ghost predicate GoodCoding(cs: seq<Chunk>, last: string, trailer: seq<Field>, eol: string, maxhdr: nat) {
    && LineEnd(eol) && AllAnnounced(cs) && maxhdr >= 2
    && NoEol(last) && Size(last) == 0
    && PlainFields(trailer) && ShortFields(trailer, eol, maxhdr)
  }

  /** The end that is computed for a trailer part at `start`, with its length kept in a
      short, lies beyond the start of the last line. */
  predicate ReachesLast(start: nat, trailer: seq<Field>, eol: string) {
    Within(Some((start + ToShort(|PrintBlock(trailer, eol)|)) % SIZE_T), start, trailer, eol)
  }

  /** Where the trailer part of a coding at i starts. */
  function TrailerStart(i: nat, cs: seq<Chunk>, last: string, eol: string): nat {
    i + |EncodeChunks(cs, eol)| + |last| + |eol|
  }

  /** A chunked body on the wire. */
  function Coded(cs: seq<Chunk>, last: string, trailer: seq<Field>, eol: string): string {
    Encode(cs, last, PrintFields(trailer), eol)
  }

  lemma NothingBefore(d: Decoded)
    ensures "" + d.body == d.body
  {
  }

  /** A good coding is read whole. */
  lemma CodedIsRead(t: string, i: nat, cs: seq<Chunk>, last: string, trailer: seq<Field>, eol: string, next: string,
                    buf: HttpBuf, peer: Peer, body: string, headers: multiset<Field>, headers': multiset<Field>,
                    extended: bool, maxhdr: nat)
    requires maxhdr >= 1 && i <= |t| && t[i..] == Coded(cs, last, trailer, eol) + next
    requires GoodCoding(cs, last, trailer, eol, maxhdr) && ReachesLast(TrailerStart(i, cs, last, eol), trailer, eol)
    requires peer.Valid() && buf.Wire(peer) == t && buf.InBounds()
    requires BodyDecoded(t, i, body, buf) && TrailerAdded(headers, headers', extended, buf, maxhdr)
    ensures body == Body(cs) && buf.Good() && t[buf.gpos..] == next
    ensures headers' == headers + multiset(Allowed(AllRead(trailer)))
    ensures extended <==> Allowed(AllRead(trailer)) != []
  {
    hide PrintBlock, ReachesLast, ReadFields, AllRead, Allowed, ToShort, TrailerStart, Decode;
    var start, end := ChunkedDecodes(t, i, cs, last, trailer, eol, next);
    TrailerIsRead(t, buf.data, start, end, trailer, eol, maxhdr);
  }

  /** The computed end, for every length: right when the length fits a short; beyond every
      position when it becomes negative there and the sum wraps round; and otherwise too
      small by 64k at least. */
  lemma ComputedEnd(start: nat, length: nat)
    requires start + length < SIZE_T
    ensures var m, limit := length % 0x1_0000, (start + ToShort(length)) % SIZE_T;
            if length < 0x8000 then limit == start + length
            else if m >= 0x8000 && start + m < 0x1_0000 then limit >= start + length
            else limit <= start + length - 0x1_0000
  {
    var q, m := length / 0x1_0000, length % 0x1_0000;
    assert length == q * 0x1_0000 + m;
  }

  /** A printed trailer part that read_chunked has recorded comes out whole if and only if
      the computed end lies beyond the start of its last line. */
  lemma TrailerIsReadWhenReached(t: string, start: nat, trailer: seq<Field>, eol: string, maxhdr: nat)
    requires LineEnd(eol) && maxhdr >= 2 && PlainFields(trailer) && ShortFields(trailer, eol, maxhdr)
    requires Stands(t, start, PrintBlock(trailer, eol))
    ensures var limit := (start + ToShort(|PrintBlock(trailer, eol)|)) % SIZE_T;
            ReadFields(t, start, Some(limit), maxhdr).fields == AllRead(trailer) <==> ReachesLast(start, trailer, eol)
  {
    hide ToShort, PrintBlock, ReadFields, Within;
    AllAreReadWithin(t, start, trailer, eol, (start + ToShort(|PrintBlock(trailer, eol)|)) % SIZE_T, maxhdr);
  }

  /** As it is when the trailer part is under 32768 bytes. */
  lemma ShortTrailerIsReached(start: nat, trailer: seq<Field>, eol: string)
    requires LineEnd(eol) && |PrintBlock(trailer, eol)| < 0x8000 && start + |PrintBlock(trailer, eol)| < SIZE_T
    ensures ReachesLast(start, trailer, eol)
  {
    hide ToShort, PrintBlock;
    ComputedEnd(start, |PrintBlock(trailer, eol)|);
  }

  /** The printed trailer part, read with the computed end. */
  lemma TrailerIsRead(t: string, data: string, start: nat, end: nat, trailer: seq<Field>, eol: string, maxhdr: nat)
    requires LineEnd(eol) && maxhdr >= 2 && PlainFields(trailer) && ShortFields(trailer, eol, maxhdr)
    requires ReachesLast(start, trailer, eol)
    requires Stands(t, start, PrintBlock(trailer, eol)) && data <= t
    requires start + |PrintBlock(trailer, eol)| == end <= |data|
    ensures var p := ReadFields(data, start, Some((start + ToShort(end - start)) % SIZE_T), maxhdr);
            p.fields == AllRead(trailer) && !p.failed
  {
    hide PrintBlock, ToShort, ReadFields, AllRead;
    assert data == t[..|data|];
    assert data[start..end] == t[start..end];
    ParsePrintedFields(data, start, trailer, eol, Some((start + ToShort(end - start)) % SIZE_T), maxhdr);
  }

  lemma ChunkedDecodes(t: string, i: nat, cs: seq<Chunk>, last: string, trailer: seq<Field>, eol: string, next: string)
    returns (start: nat, end: nat)
    requires i <= |t| && t[i..] == Encode(cs, last, PrintFields(trailer), eol) + next
    requires LineEnd(eol) && AllAnnounced(cs) && NoEol(last) && Size(last) == 0 && PlainFields(trailer)
    ensures start == TrailerStart(i, cs, last, eol) && start + |PrintBlock(trailer, eol)| == end <= |t|
    ensures Decode(t, i) == Done(Body(cs), start, end)
    ensures Stands(t, start, PrintBlock(trailer, eol)) && t[end..] == next
  {
    var lines, block := PrintFields(trailer), PrintBlock(trailer, eol);
    var coded := Encode(cs, last, lines, eol);
    var front := EncodeChunks(cs, eol) + (last + eol);
    PrintedTrailerLines(trailer);
    EncodeEndsWithBlock(cs, last, trailer, eol);
    InMiddle(t, i, coded, next);
    start, end := DecodeInvertsEncode(t, i, cs, last, lines, eol);
    StandsSplit(t, i, front, block);
  }

  lemma PrintedTrailerLines(trailer: seq<Field>)
    requires PlainFields(trailer)
    ensures TrailerLines(PrintFields(trailer))
  {
    var lines := PrintFields(trailer);
    forall j | 0 <= j < |lines| ensures lines[j] != "" && NoEol(lines[j]) {
      assert trailer[j] in trailer;
      PrintedFieldIsPlain(trailer[j]);
    }
  }

  lemma EncodeEndsWithBlock(cs: seq<Chunk>, last: string, trailer: seq<Field>, eol: string)
    ensures Encode(cs, last, PrintFields(trailer), eol)
            == EncodeChunks(cs, eol) + (last + eol) + PrintBlock(trailer, eol)
    ensures |PrintBlock(trailer, eol)| == |EncodeLines(PrintFields(trailer), eol)| + |eol|
  {
  }

  lemma InMiddle(t: string, i: nat, s: string, next: string)
    requires i <= |t| && t[i..] == s + next
    ensures Stands(t, i, s) && t[i + |s|..] == next
  {
    assert t[i..i + |s|] == t[i..][..|s|];
    assert t[i + |s|..] == t[i..][|s|..];
  }

  lemma AfterPrefix(head: string, rest: string)
    ensures head <= head + rest && (head + rest)[|head|..] == rest
  {
  }
}
