/** The chunked transfer coding as HttpBuf::read_chunked understands it, as a decoder of
    a whole text, and its inverse. */
module Chunked {
  import opened CStrings
  import opened Options

  /** Done: the body, where the trailer part starts, and where the message ends.
      Starved: the text ends first; the body bytes it does hold, and where the trailer
      part starts if it gets that far. */
  datatype Decoded =
    | Done(body: string, trailer: nat, end: nat)
    | Starved(body: string, last: Option<nat>)

  /** The value a character of a size line contributes: 0..15, or None to skip it. */
  function Digit(ch: char): Option<nat> {
    if '0' <= ch <= '9' then Some(ch as int % 16)
    else if 'a' <= ch <= 'f' || 'A' <= ch <= 'F' then Some(ch as int % 16 + 9)
    else None
  }

  /** The accumulator's step: TEN times the size so far, whatever the digit. */
  function Accumulate(size: nat, ch: char): nat {
    match Digit(ch)
    case Some(d) => size * 10 + d
    case None => size
  }

  /** Past the line end at i.  A CR needs one more character, to see whether it is LF. */
  function PastEol(t: string, i: nat): (r: Option<nat>)
    requires i < |t| && IsEol(t[i])
    ensures r.Some? ==> i < r.value <= |t|
  {
    if t[i] == '\n' then Some(i + 1)
    else if i + 1 == |t| then None
    else if t[i + 1] == '\n' then Some(i + 2)
    else Some(i + 1)
  }

  /** The size on the line at i, and the position after that line. */
  function SizeLine(t: string, i: nat, size: nat): (r: Option<(nat, nat)>)
    requires i <= |t|
    ensures r.Some? ==> i < r.value.1 <= |t|
    decreases |t| - i
  {
    if i == |t| then None
    else if IsEol(t[i]) then
      match PastEol(t, i)
      case Some(next) => Some((size, next))
      case None => None
    else SizeLine(t, i + 1, Accumulate(size, t[i]))
  }

  /** Past the line at i, its end included. */
  function PastLine(t: string, i: nat): (r: Option<nat>)
    requires i <= |t|
    ensures r.Some? ==> i < r.value <= |t|
    decreases |t| - i
  {
    if i == |t| then None else if IsEol(t[i]) then PastEol(t, i) else PastLine(t, i + 1)
  }

  /** Past the empty line that ends the trailer part at i. */
  function PastTrailer(t: string, i: nat): (r: Option<nat>)
    requires i <= |t|
    ensures r.Some? ==> i < r.value <= |t|
    decreases |t| - i
  {
    if i == |t| then None
    else if IsEol(t[i]) then PastEol(t, i)
    else
      match PastLine(t, i + 1)
      case Some(next) => PastTrailer(t, next)
      case None => None
  }

  /** After chunk data one character is dropped, whatever it is, with the LF of a CR LF. */
  function PastData(t: string, i: nat): (r: Option<nat>)
    requires i <= |t|
    ensures r.Some? ==> i < r.value <= |t|
  {
    if i == |t| then None else if IsEol(t[i]) then PastEol(t, i) else Some(i + 1)
  }

  function Append(body: string, d: Decoded): Decoded {
    match d
    case Done(rest, trailer, end) => Done(body + rest, trailer, end)
    case Starved(rest, last) => Starved(body + rest, last)
  }

  function Decode(t: string, i: nat): (d: Decoded)
    requires i <= |t|
    ensures d.Done? ==> i < d.trailer < d.end <= |t|
    decreases |t| - i
  {
    match SizeLine(t, i, 0)
    case None => Starved("", None)
    case Some((size, data)) =>
      if size == 0 then
        match PastTrailer(t, data)
        case Some(end) => Done("", data, end)
        case None => Starved("", Some(data))
      else if |t| - data < size then Starved(t[data..], None)
      else
        match PastData(t, data + size)
        case Some(next) => Append(t[data..data + size], Decode(t, next))
        case None => Starved(t[data..data + size], None)
  }

  // ---- the encoder -------------------------------------------------------------

  /** A chunk and the size line it is announced with. */
  datatype Chunk = Chunk(line: string, data: string)

  function Size(line: string): nat {
    if line == "" then 0 else Accumulate(Size(line[..|line| - 1]), line[|line| - 1])
  }

  predicate NoEol(line: string) {
    forall i :: 0 <= i < |line| ==> !IsEol(line[i])
  }

  /** A non-empty chunk whose size line the decoder reads as its length. */
  predicate Announced(c: Chunk) {
    NoEol(c.line) && c.data != "" && Size(c.line) == |c.data|
  }

  function EncodeChunks(cs: seq<Chunk>, eol: string): string {
    if cs == [] then "" else cs[0].line + eol + cs[0].data + eol + EncodeChunks(cs[1..], eol)
  }

  function EncodeLines(lines: seq<string>, eol: string): string {
    if lines == [] then "" else lines[0] + eol + EncodeLines(lines[1..], eol)
  }

  function Encode(cs: seq<Chunk>, last: string, trailer: seq<string>, eol: string): string {
    EncodeChunks(cs, eol) + (last + eol + (EncodeLines(trailer, eol) + eol))
  }

  function Body(cs: seq<Chunk>): string {
    if cs == [] then "" else cs[0].data + Body(cs[1..])
  }

  // ---- the round trip -----------------------------------------------------------

  /** s stands in t at position i. */
  predicate Stands(t: string, i: nat, s: string) {
    i + |s| <= |t| && t[i..i + |s|] == s
  }

  lemma StandsSplit(t: string, i: nat, a: string, b: string)
    requires Stands(t, i, a + b)
    ensures Stands(t, i, a) && Stands(t, i + |a|, b)
  {
    assert t[i..i + |a|] == t[i..i + |a + b|][..|a|];
    assert t[i + |a|..i + |a| + |b|] == t[i..i + |a + b|][|a|..];
  }

  /** A line and its line end, and then the rest. */
  lemma LineStands(t: string, i: nat, line: string, eol: string, rest: string)
    requires LineEnd(eol) && Stands(t, i, line + eol + rest)
    ensures Stands(t, i, line + eol) && Stands(t, i, line) && Stands(t, i + |line| + |eol|, rest)
    ensures i + |line| < |t| && IsEol(t[i + |line|]) && PastEol(t, i + |line|) == Some(i + |line| + |eol|)
    ensures t[i + |line|..i + |line| + |eol|] == eol
    ensures forall k :: 0 <= k < |line| ==> t[i + k] == line[k]
  {
    StandsSplit(t, i, line + eol, rest);
    StandsSplit(t, i, line, eol);
    var e := i + |line|;
    assert t[e..e + |eol|] == eol;
    assert t[e] == eol[0] && (|eol| == 2 ==> t[e + 1] == t[e..e + |eol|][1] == eol[1]);
    assert forall k :: 0 <= k < |line| ==> t[i..i + |line|][k] == line[k];
  }

  lemma {:induction false} SizeLineReads(t: string, i: nat, line: string, eol: string, done: nat)
    requires LineEnd(eol) && done <= |line| && NoEol(line) && Stands(t, i, line + eol)
    ensures SizeLine(t, i + done, Size(line[..done])) == Some((Size(line), i + |line| + |eol|))
    decreases |line| - done
  {
    hide PastEol, IsEol, LineEnd, Accumulate;
    assert line + eol == line + eol + "";
    LineStands(t, i, line, eol, "");
    if done == |line| {
      assert line[..done] == line;
    } else {
      assert t[i + done] == line[done];
      var more := line[..done + 1];
      assert more[..|more| - 1] == line[..done];
      SizeLineReads(t, i, line, eol, done + 1);
    }
  }

  lemma SizeLineRead(t: string, i: nat, line: string, eol: string, size: nat, next: nat)
    requires LineEnd(eol) && NoEol(line) && Stands(t, i, line + eol) && size == Size(line) && next == i + |line| + |eol|
    ensures SizeLine(t, i, 0) == Some((size, next))
  {
    SizeLineReads(t, i, line, eol, 0);
    assert Size(line[..0]) == 0 && i + 0 == i;
  }

  lemma {:induction false} PastLineReads(t: string, i: nat, line: string, eol: string, done: nat)
    requires LineEnd(eol) && done <= |line| && NoEol(line) && Stands(t, i, line + eol)
    ensures PastLine(t, i + done) == Some(i + |line| + |eol|)
    decreases |line| - done
  {
    assert line + eol == line + eol + "";
    LineStands(t, i, line, eol, "");
    if done == |line| {
    } else {
      assert t[i + done] == line[done];
      PastLineReads(t, i, line, eol, done + 1);
    }
  }

  predicate TrailerLines(lines: seq<string>) {
    forall k :: 0 <= k < |lines| ==> lines[k] != "" && NoEol(lines[k])
  }

  lemma {:induction false} PastTrailerReads(t: string, i: nat, lines: seq<string>, eol: string)
    requires LineEnd(eol) && TrailerLines(lines) && Stands(t, i, EncodeLines(lines, eol) + eol)
    ensures PastTrailer(t, i) == Some(i + |EncodeLines(lines, eol)| + |eol|)
    decreases |lines|
  {
    hide PastLine, PastEol, NoEol;
    if lines == [] {
      assert EncodeLines(lines, eol) + eol == "" + eol + "";
      LineStands(t, i, "", eol, "");
    } else {
      var line, rest := lines[0], EncodeLines(lines[1..], eol) + eol;
      var next := i + |line| + |eol|;
      LinesSplit(lines, eol);
      LineStands(t, i, line, eol, rest);
      assert TrailerLines(lines[1..]);
      PastTrailerReads(t, next, lines[1..], eol);
      PastFirstLine(t, i, line, eol, next);
    }
  }

  lemma LinesSplit(lines: seq<string>, eol: string)
    requires lines != []
    ensures EncodeLines(lines, eol) + eol == lines[0] + eol + (EncodeLines(lines[1..], eol) + eol)
  {
  }

  lemma PastFirstLine(t: string, i: nat, line: string, eol: string, next: nat)
    requires LineEnd(eol) && line != "" && NoEol(line) && Stands(t, i, line + eol) && next == i + |line| + |eol|
    ensures PastTrailer(t, i) == PastTrailer(t, next)
  {
    assert line + eol == line + eol + "";
    LineStands(t, i, line, eol, "");
    assert t[i + 0] == line[0] && !IsEol(line[0]);
    PastLineReads(t, i, line, eol, 1);
  }

  /** Main result: encoding then decoding gives the chunks' data back, finds the trailer
      part and stops exactly at the end, whatever bytes the chunks hold, whether lines
      end in CR LF or LF, and whatever stands before or after the message. */
  lemma {:induction false} DecodeInvertsEncode(t: string, i: nat, cs: seq<Chunk>, last: string, trailer: seq<string>,
                                               eol: string)
    returns (start: nat, end: nat)
    requires LineEnd(eol) && Stands(t, i, Encode(cs, last, trailer, eol)) && AllAnnounced(cs)
    requires NoEol(last) && Size(last) == 0 && TrailerLines(trailer)
    ensures end == i + |Encode(cs, last, trailer, eol)| && start == end - |EncodeLines(trailer, eol)| - |eol|
    ensures i <= |t| && Decode(t, i) == Done(Body(cs), start, end)
    decreases |cs|
  {
    if cs == [] {
      start, end := DecodeReadsLast(t, i, last, trailer, eol);
    } else {
      TailAnnounced(cs);
      var next := FirstChunkDecodes(t, i, cs, last, trailer, eol);
      start, end := DecodeInvertsEncode(t, next, cs[1..], last, trailer, eol);
      JoinBody(cs, Decode(t, next), Decode(t, i), start, end);
    }
  }

  ghost predicate AllAnnounced(cs: seq<Chunk>) {
    forall k :: 0 <= k < |cs| ==> Announced(cs[k])
  }

  lemma TailAnnounced(cs: seq<Chunk>)
    requires cs != [] && AllAnnounced(cs)
    ensures Announced(cs[0]) && AllAnnounced(cs[1..])
  {
  }

  lemma JoinBody(cs: seq<Chunk>, rest: Decoded, whole: Decoded, start: nat, end: nat)
    requires cs != [] && rest == Done(Body(cs[1..]), start, end) && whole == Append(cs[0].data, rest)
    ensures whole == Done(Body(cs), start, end)
  {
  }

  lemma FirstChunkDecodes(t: string, i: nat, cs: seq<Chunk>, last: string, trailer: seq<string>, eol: string)
    returns (next: nat)
    requires LineEnd(eol) && cs != [] && Announced(cs[0]) && Stands(t, i, Encode(cs, last, trailer, eol))
    ensures Stands(t, next, Encode(cs[1..], last, trailer, eol))
    ensures i + |Encode(cs, last, trailer, eol)| == next + |Encode(cs[1..], last, trailer, eol)|
    ensures Decode(t, i) == Append(cs[0].data, Decode(t, next))
  {
    var rest := Encode(cs[1..], last, trailer, eol);
    EncodeCons(cs, last, trailer, eol);
    next := ChunkDecodes(t, i, cs[0], eol, rest);
  }

  lemma ChunkDecodes(t: string, i: nat, c: Chunk, eol: string, rest: string) returns (next: nat)
    requires LineEnd(eol) && Announced(c) && Stands(t, i, c.line + eol + (c.data + eol + rest))
    ensures next == i + |c.line| + |eol| + |c.data| + |eol| && Stands(t, next, rest)
    ensures Decode(t, i) == Append(c.data, Decode(t, next))
  {
    hide Decode, SizeLine, PastData, Size, NoEol;
    var size, data := |c.data|, i + |c.line| + |eol|;
    var end := data + size;
    next := end + |eol|;
    LineStands(t, i, c.line, eol, c.data + eol + rest);
    SizeLineRead(t, i, c.line, eol, size, data);
    DataLineStands(t, data, c.data, eol, rest, end, next);
    DecodeSteps(t, i, size, data, end, next);
  }

  lemma DataLineStands(t: string, i: nat, data: string, eol: string, rest: string, end: nat, next: nat)
    requires LineEnd(eol) && Stands(t, i, data + eol + rest) && end == i + |data| && next == end + |eol|
    ensures next <= |t| && t[i..end] == data
    ensures PastData(t, end) == Some(next) && Stands(t, next, rest)
  {
    LineStands(t, i, data, eol, rest);
  }

  lemma EncodeCons(cs: seq<Chunk>, last: string, trailer: seq<string>, eol: string)
    requires cs != []
    ensures Encode(cs, last, trailer, eol)
            == cs[0].line + eol + (cs[0].data + eol + Encode(cs[1..], last, trailer, eol))
  {
    var c, more, tail := cs[0], EncodeChunks(cs[1..], eol), last + eol + (EncodeLines(trailer, eol) + eol);
    assert EncodeChunks(cs, eol) == c.line + eol + c.data + eol + more;
    assert Encode(cs, last, trailer, eol) == (c.line + eol + c.data + eol + more) + tail;
    assert Encode(cs[1..], last, trailer, eol) == more + tail;
  }

  lemma DecodeReadsLast(t: string, i: nat, last: string, trailer: seq<string>, eol: string)
    returns (start: nat, end: nat)
    requires LineEnd(eol) && Stands(t, i, Encode([], last, trailer, eol))
    requires NoEol(last) && Size(last) == 0 && TrailerLines(trailer)
    ensures end == i + |Encode([], last, trailer, eol)| && start == end - |EncodeLines(trailer, eol)| - |eol|
    ensures Decode(t, i) == Done("", start, end)
  {
    var tail := EncodeLines(trailer, eol) + eol;
    assert Encode([], last, trailer, eol) == last + eol + tail;
    start := i + |last| + |eol|;
    end := start + |tail|;
    LineStands(t, i, last, eol, tail);
    SizeLineRead(t, i, last, eol, 0, start);
    PastTrailerReads(t, start, trailer, eol);
    DecodeLast(t, i, start);
  }

  lemma DecodeSteps(t: string, i: nat, size: nat, data: nat, end: nat, next: nat)
    requires i <= |t| && SizeLine(t, i, 0) == Some((size, data)) && size > 0
    requires end == data + size <= |t| && PastData(t, end) == Some(next)
    ensures Decode(t, i) == Append(t[data..end], Decode(t, next))
  {
  }

  lemma DecodeWithoutSize(t: string, i: nat)
    requires i <= |t| && SizeLine(t, i, 0).None?
    ensures Decode(t, i) == Starved("", None)
  {
  }

  lemma DecodeShortOfData(t: string, i: nat, size: nat, data: nat)
    requires i <= |t| && SizeLine(t, i, 0) == Some((size, data)) && size > 0 && |t| - data < size
    ensures Decode(t, i) == Starved(t[data..], None)
  {
  }

  lemma DecodeShortOfEol(t: string, i: nat, size: nat, data: nat)
    requires i <= |t| && SizeLine(t, i, 0) == Some((size, data)) && size > 0
    requires data + size <= |t| && PastData(t, data + size).None?
    ensures Decode(t, i) == Starved(t[data..data + size], None)
  {
  }

  /** What follows the chunk of size 0. */
  function LastPart(t: string, i: nat): Decoded
    requires i <= |t|
  {
    match PastTrailer(t, i)
    case Some(end) => Done("", i, end)
    case None => Starved("", Some(i))
  }

  lemma DecodeLast(t: string, i: nat, data: nat)
    requires i <= |t| && SizeLine(t, i, 0) == Some((0, data))
    ensures Decode(t, i) == LastPart(t, data)
  {
  }

  // ---- exactly which texts are messages --------------------------------------------

  /** A line end stands from i to next: CR LF, LF, or a CR with another character behind. */
  predicate EndAt(t: string, i: nat, next: nat) {
    && i < next <= |t|
    && (|| t[i..next] == "\r\n"
        || t[i..next] == "\n"
        || (t[i..next] == "\r" && next < |t| && t[next] != '\n'))
  }

  lemma PastEolIsEnd(t: string, i: nat, next: nat)
    requires i < |t| && IsEol(t[i])
    ensures PastEol(t, i) == Some(next) <==> EndAt(t, i, next)
  {
    if i < next <= |t| {
      assert |t[i..next]| == next - i && t[i..next][0] == t[i];
      if next == i + 2 {
        assert t[i..next] == [t[i], t[i + 1]];
      } else if next == i + 1 {
        assert t[i..next] == [t[i]];
      }
    }
  }

  /** A line from i to stop, and its end up to next. */
  predicate LineAt(t: string, i: nat, stop: nat, next: nat) {
    i <= stop < |t| && NoEol(t[i..stop]) && EndAt(t, stop, next)
  }

  lemma EndIsEol(t: string, i: nat, next: nat)
    requires EndAt(t, i, next)
    ensures i < |t| && IsEol(t[i])
  {
    assert t[i..next][0] == t[i];
  }

  lemma {:induction false} PastLineIsLine(t: string, i: nat, next: nat)
    requires i <= |t|
    ensures PastLine(t, i) == Some(next) <==> exists stop: nat :: LineAt(t, i, stop, next)
    decreases |t| - i
  {
    if i == |t| {
    } else if IsEol(t[i]) {
      PastEolIsEnd(t, i, next);
      assert t[i..i] == "";
      NoneBeyondEol(t, i, i);
      assert LineAt(t, i, i, next) <==> EndAt(t, i, next);
    } else {
      var j := i + 1;
      PastLineIsLine(t, j, next);
      LongerLine(t, i, j, next);
      assert PastLine(t, i) == PastLine(t, j);
      if stop: nat :| LineAt(t, j, stop, next) {
        assert LineAt(t, i, stop, next);
      }
    }
  }

  /** No text with a line end at i is free of them. */
  lemma NoneBeyondEol(t: string, from: nat, i: nat)
    requires from <= i < |t| && IsEol(t[i])
    ensures forall stop: nat :: i < stop <= |t| ==> !NoEol(t[from..stop])
  {
    forall stop: nat | i < stop <= |t| ensures !NoEol(t[from..stop]) {
      assert t[from..stop][i - from] == t[i];
    }
  }

  lemma LongerLine(t: string, i: nat, j: nat, next: nat)
    requires i < |t| && !IsEol(t[i]) && j == i + 1
    ensures forall stop: nat :: LineAt(t, i, stop, next) <==> LineAt(t, j, stop, next)
  {
    forall stop: nat ensures LineAt(t, i, stop, next) <==> LineAt(t, j, stop, next) {
      if j <= stop <= |t| {
        assert t[i..stop] == [t[i]] + t[j..stop];
        assert forall k :: 0 <= k < |t[j..stop]| ==> t[j..stop][k] == t[i..stop][k + 1];
      }
      if EndAt(t, stop, next) {
        EndIsEol(t, stop, next);
      }
    }
  }

  lemma {:induction false} SizeLineIsLine(t: string, i: nat, from: nat, size: nat, next: nat)
    requires from <= i <= |t| && NoEol(t[from..i])
    ensures SizeLine(t, i, Size(t[from..i])) == Some((size, next)) <==>
              exists stop: nat :: i <= stop && LineAt(t, from, stop, next) && Size(t[from..stop]) == size
    decreases |t| - i
  {
    if i < |t| && !IsEol(t[i]) {
      var more := t[from..i + 1];
      assert more[..|more| - 1] == t[from..i] && more == t[from..i] + [t[i]];
      assert NoEol(more);
      SizeLineIsLine(t, i + 1, from, size, next);
      forall stop: nat | i <= stop && LineAt(t, from, stop, next) ensures i + 1 <= stop {
        EndIsEol(t, stop, next);
      }
    } else if i < |t| {
      PastEolIsEnd(t, i, next);
      if EndAt(t, i, next) {
        assert LineAt(t, from, i, next);
      }
      NoneBeyondEol(t, from, i);
    }
  }

  /** A trailer part from i to end: these lines, none of them empty, and an empty line. */
  ghost predicate TrailerAt(t: string, i: nat, lines: seq<string>, end: nat)
    decreases |lines|
  {
    if lines == [] then LineAt(t, i, i, end)
    else exists next: nat :: FirstLineAt(t, i, lines[0], next) && TrailerAt(t, next, lines[1..], end)
  }

  predicate FirstLineAt(t: string, i: nat, line: string, next: nat) {
    line != "" && LineAt(t, i, i + |line|, next) && t[i..i + |line|] == line
  }

  lemma FirstLineIsPast(t: string, i: nat, line: string, next: nat)
    requires FirstLineAt(t, i, line, next)
    ensures i < |t| && !IsEol(t[i]) && PastLine(t, i + 1) == Some(next)
  {
    assert t[i..i + |line|][0] == t[i];
    LongerLine(t, i, i + 1, next);
    assert LineAt(t, i + 1, i + |line|, next);
    PastLineIsLine(t, i + 1, next);
  }

  lemma PastIsFirstLine(t: string, i: nat, next: nat) returns (line: string)
    requires i < |t| && !IsEol(t[i]) && PastLine(t, i + 1) == Some(next)
    ensures FirstLineAt(t, i, line, next)
  {
    PastLineIsLine(t, i + 1, next);
    LongerLine(t, i, i + 1, next);
    var stop: nat :| LineAt(t, i + 1, stop, next);
    line := t[i..stop];
  }

  lemma {:induction false} TrailerIsPast(t: string, i: nat, lines: seq<string>, end: nat)
    requires TrailerAt(t, i, lines, end)
    ensures i <= |t| && PastTrailer(t, i) == Some(end)
    decreases |lines|
  {
    if lines == [] {
      EndIsEol(t, i, end);
      PastEolIsEnd(t, i, end);
    } else {
      var next: nat :| FirstLineAt(t, i, lines[0], next) && TrailerAt(t, next, lines[1..], end);
      FirstLineIsPast(t, i, lines[0], next);
      TrailerIsPast(t, next, lines[1..], end);
    }
  }

  lemma {:induction false} PastIsTrailer(t: string, i: nat, end: nat) returns (lines: seq<string>)
    requires i <= |t| && PastTrailer(t, i) == Some(end)
    ensures TrailerAt(t, i, lines, end)
    decreases |t| - i
  {
    if IsEol(t[i]) {
      PastEolIsEnd(t, i, end);
      assert t[i..i] == "";
      lines := [];
    } else {
      var next := PastLine(t, i + 1).value;
      var line := PastIsFirstLine(t, i, next);
      var rest := PastIsTrailer(t, next, end);
      lines := [line] + rest;
      assert lines[1..] == rest;
    }
  }

  /** What is dropped after a chunk's data: a line end or any one other character. */
  predicate DroppedAt(t: string, i: nat, next: nat) {
    i < |t| && if IsEol(t[i]) then EndAt(t, i, next) else next == i + 1
  }

  /** A chunk from i to next: its size line, that many bytes of data, and what is dropped. */
  predicate ChunkAt(t: string, i: nat, stop: nat, start: nat, data: string, next: nat) {
    && LineAt(t, i, stop, start) && Size(t[i..stop]) == |data| > 0
    && Stands(t, start, data) && DroppedAt(t, start + |data|, next)
  }

  /** A message from i to end: chunks with these data, a line of size 0, and a trailer part
      from `trailer` on.  Every line may end in CR LF, LF or CR. */
  ghost predicate MessageAt(t: string, i: nat, datas: seq<string>, trailer: nat, end: nat)
    decreases |datas|
  {
    if datas == [] then
      && (exists stop: nat :: LineAt(t, i, stop, trailer) && Size(t[i..stop]) == 0)
      && exists lines :: TrailerAt(t, trailer, lines, end)
    else
      exists stop: nat, start: nat, next: nat ::
        ChunkAt(t, i, stop, start, datas[0], next) && MessageAt(t, next, datas[1..], trailer, end)
  }

  function Joined(datas: seq<string>): string {
    if datas == [] then "" else datas[0] + Joined(datas[1..])
  }

  lemma SizeLineAt(t: string, i: nat, size: nat, next: nat)
    requires i <= |t|
    ensures SizeLine(t, i, 0) == Some((size, next)) <==>
              exists stop: nat :: LineAt(t, i, stop, next) && Size(t[i..stop]) == size
  {
    assert t[i..i] == "" && Size("") == 0;
    SizeLineIsLine(t, i, i, size, next);
  }

  lemma PastDataIsDropped(t: string, i: nat, next: nat)
    requires i <= |t|
    ensures PastData(t, i) == Some(next) <==> DroppedAt(t, i, next)
  {
    if i < |t| && IsEol(t[i]) {
      PastEolIsEnd(t, i, next);
    }
  }

  lemma {:induction false} MessageDecodes(t: string, i: nat, datas: seq<string>, trailer: nat, end: nat)
    requires MessageAt(t, i, datas, trailer, end)
    ensures i <= |t| && Decode(t, i) == Done(Joined(datas), trailer, end)
    decreases |datas|
  {
    hide MessageAt, TrailerAt, LineAt, SizeLine, PastTrailer, PastData, Size;
    if datas == [] {
      EmptyMessage(t, i, trailer, end);
    } else {
      var stop, start, next := FirstChunk(t, i, datas, trailer, end);
      MessageDecodes(t, next, datas[1..], trailer, end);
      DecodeSteps(t, i, |datas[0]|, start, start + |datas[0]|, next);
    }
  }

  lemma EmptyMessage(t: string, i: nat, trailer: nat, end: nat)
    requires MessageAt(t, i, [], trailer, end)
    ensures i <= |t| && Decode(t, i) == Done("", trailer, end)
  {
    hide TrailerAt, SizeLine, Size;
    SizeLineAt(t, i, 0, trailer);
    var lines :| TrailerAt(t, trailer, lines, end);
    TrailerIsPast(t, trailer, lines, end);
    DecodeLast(t, i, trailer);
  }

  lemma FirstChunk(t: string, i: nat, datas: seq<string>, trailer: nat, end: nat)
    returns (stop: nat, start: nat, next: nat)
    requires datas != [] && MessageAt(t, i, datas, trailer, end)
    ensures MessageAt(t, next, datas[1..], trailer, end)
    ensures i <= |t| && SizeLine(t, i, 0) == Some((|datas[0]|, start)) && |datas[0]| > 0
    ensures start + |datas[0]| <= |t| && t[start..start + |datas[0]|] == datas[0]
    ensures PastData(t, start + |datas[0]|) == Some(next)
  {
    hide SizeLine, PastData, Size, DroppedAt, EndAt, NoEol;
    stop, start, next :| ChunkAt(t, i, stop, start, datas[0], next) && MessageAt(t, next, datas[1..], trailer, end);
    SizeLineAt(t, i, |datas[0]|, start);
    PastDataIsDropped(t, start + |datas[0]|, next);
  }

  lemma {:induction false} DecodedIsMessage(t: string, i: nat) returns (datas: seq<string>)
    requires i <= |t| && Decode(t, i).Done?
    ensures var d := Decode(t, i); Joined(datas) == d.body && MessageAt(t, i, datas, d.trailer, d.end)
    decreases |t| - i
  {
    hide TrailerAt, SizeLine, PastTrailer, PastData, Size, DroppedAt, EndAt, NoEol;
    var (size, start) := SizeLine(t, i, 0).value;
    SizeLineAt(t, i, size, start);
    if size == 0 {
      datas := [];
      var end := PastTrailer(t, start).value;
      var lines := PastIsTrailer(t, start, end);
    } else {
      var next := PastData(t, start + size).value;
      var rest := DecodedIsMessage(t, next);
      var data := t[start..start + size];
      PastDataIsDropped(t, start + size, next);
      var stop: nat :| LineAt(t, i, stop, start) && Size(t[i..stop]) == size;
      assert ChunkAt(t, i, stop, start, data, next);
      datas := [data] + rest;
      assert datas[1..] == rest;
    }
  }

  /** Main result on what counts as complete, for every text: the decoder is done exactly
      where a whole message stands, with its data, and nowhere else. */
  lemma DoneExactlyForMessages(t: string, i: nat, body: string, trailer: nat, end: nat)
    requires i <= |t|
    ensures Decode(t, i) == Done(body, trailer, end) <==>
              exists datas :: Joined(datas) == body && MessageAt(t, i, datas, trailer, end)
  {
    hide MessageAt, Decode, Joined;
    if Decode(t, i) == Done(body, trailer, end) {
      var datas := DecodedIsMessage(t, i);
    }
    forall datas | MessageAt(t, i, datas, trailer, end)
      ensures Decode(t, i) == Done(Joined(datas), trailer, end)
    {
      MessageDecodes(t, i, datas, trailer, end);
    }
  }

  // ---- messages cut short -----------------------------------------------------------

  lemma EolStays(t: string, u: string, i: nat)
    requires i < |t| && IsEol(t[i])
    ensures PastEol(t, i).Some? ==> PastEol(t + u, i) == PastEol(t, i)
  {
  }

  lemma {:induction false} SizeLineStays(t: string, u: string, i: nat, size: nat)
    requires i <= |t|
    ensures SizeLine(t, i, size).Some? ==> SizeLine(t + u, i, size) == SizeLine(t, i, size)
    decreases |t| - i
  {
    if i < |t| {
      assert (t + u)[i] == t[i];
      if IsEol(t[i]) {
        EolStays(t, u, i);
      } else {
        SizeLineStays(t, u, i + 1, Accumulate(size, t[i]));
      }
    }
  }

  lemma {:induction false} LineStays(t: string, u: string, i: nat)
    requires i <= |t|
    ensures PastLine(t, i).Some? ==> PastLine(t + u, i) == PastLine(t, i)
    decreases |t| - i
  {
    if i < |t| {
      assert (t + u)[i] == t[i];
      if IsEol(t[i]) {
        EolStays(t, u, i);
      } else {
        LineStays(t, u, i + 1);
      }
    }
  }

  lemma {:induction false} TrailerStays(t: string, u: string, i: nat)
    requires i <= |t|
    ensures PastTrailer(t, i).Some? ==> PastTrailer(t + u, i) == PastTrailer(t, i)
    decreases |t| - i
  {
    if i < |t| {
      assert (t + u)[i] == t[i];
      if IsEol(t[i]) {
        EolStays(t, u, i);
      } else {
        LineStays(t, u, i + 1);
        var next := PastLine(t, i + 1);
        if next.Some? {
          TrailerStays(t, u, next.value);
        }
      }
    }
  }

  /** What more text makes of a decoder's answer: nothing if it was done; and if not, what
      it had of the body and of the trailer's place stands. */
  ghost predicate Extends(d: Decoded, longer: Decoded) {
    match d
    case Done(_, _, _) => longer == d
    case Starved(body, last) =>
      && body <= longer.body
      && (last.Some? ==> longer.body == body && (longer.Done? ==> longer.trailer == last.value))
  }

  /** A message that is complete is not changed by what follows it, and one cut short has
      given out no byte but the message's own. */
  lemma {:induction false} MoreTextExtends(t: string, u: string, i: nat)
    requires i <= |t|
    ensures Extends(Decode(t, i), Decode(t + u, i))
    decreases |t| - i
  {
    hide SizeLine, PastTrailer, PastData, PastEol;
    SizeLineStays(t, u, i, 0);
    var line := SizeLine(t, i, 0);
    if line.Some? {
      var (size, start) := line.value;
      if size == 0 {
        TrailerStays(t, u, start);
      } else if |t| - start < size {
        CutData(t, u, i, size, start);
      } else {
        WholeData(t, u, i, size, start);
        if PastData(t, start + size).Some? {
          MoreTextExtends(t, u, PastData(t, start + size).value);
          ExtendsBehind(t[start..start + size], Decode(t, PastData(t, start + size).value),
                        Decode(t + u, PastData(t, start + size).value));
        }
      }
    }
  }

  lemma ExtendsBehind(data: string, d: Decoded, longer: Decoded)
    requires Extends(d, longer)
    ensures Extends(Append(data, d), Append(data, longer))
  {
  }

  lemma CutData(t: string, u: string, i: nat, size: nat, start: nat)
    requires i <= |t| && SizeLine(t, i, 0) == Some((size, start)) == SizeLine(t + u, i, 0)
    requires size > 0 && start <= |t| && |t| - start < size
    ensures Extends(Decode(t, i), Decode(t + u, i))
  {
    var n := |t| - start;
    assert t[start..] == (t + u)[start..][..n];
    if |t + u| - start >= size {
      assert t[start..] == (t + u)[start..start + size][..n];
    }
  }

  lemma WholeData(t: string, u: string, i: nat, size: nat, start: nat)
    requires i <= |t| && SizeLine(t, i, 0) == Some((size, start)) == SizeLine(t + u, i, 0)
    requires size > 0 && start + size <= |t|
    ensures (t + u)[start..start + size] == t[start..start + size]
    ensures var next := PastData(t, start + size);
            if next.None? then Extends(Decode(t, i), Decode(t + u, i))
            else PastData(t + u, start + size) == next
  {
    assert (t + u)[start..start + size] == t[start..start + size];
    if start + size < |t| {
      assert (t + u)[start + size] == t[start + size];
      if IsEol(t[start + size]) {
        EolStays(t, u, start + size);
      }
    }
  }

  /** A message cut anywhere before its end is not complete, and what has come of it is the
      beginning of its body. */
  lemma CutMessageIsStarved(t: string, i: nat, n: nat)
    requires i <= n <= |t| && Decode(t, i).Done? && n < Decode(t, i).end
    ensures Decode(t[..n], i).Starved? && Decode(t[..n], i).body <= Decode(t, i).body
  {
    hide Decode;
    assert t[..n] + t[n..] == t;
    MoreTextExtends(t[..n], t[n..], i);
  }

  /** Of an encoding, every proper prefix. */
  lemma CutEncodingIsStarved(cs: seq<Chunk>, last: string, trailer: seq<string>, eol: string, n: nat)
    requires LineEnd(eol) && AllAnnounced(cs) && NoEol(last) && Size(last) == 0 && TrailerLines(trailer)
    requires n < |Encode(cs, last, trailer, eol)|
    ensures var d := Decode(Encode(cs, last, trailer, eol)[..n], 0); d.Starved? && d.body <= Body(cs)
  {
    hide Decode, Encode;
    var t := Encode(cs, last, trailer, eol);
    assert Stands(t, 0, t);
    var _, _ := DecodeInvertsEncode(t, 0, cs, last, trailer, eol);
    CutMessageIsStarved(t, 0, n);
  }

  // ---- the size line against the standard ------------------------------------------

  /** chunk-size of section 4.1 of RFC 7230: hexadecimal. */
  function HexSize(line: string): nat {
    if line == "" then 0
    else
      match Digit(line[|line| - 1])
      case Some(d) => HexSize(line[..|line| - 1]) * 16 + d
      case None => HexSize(line[..|line| - 1])
  }

  /** The characters that count are the sixteen hexadecimal digits, in either case, each at
      its place among them; each multiplies what stood before by ten. */
  lemma SizeCountsHexDigits(line: string, k: nat)
    requires k < 16
    ensures Size(line + ["0123456789abcdef"[k]]) == Size(line) * 10 + k
    ensures Size(line + ["0123456789ABCDEF"[k]]) == Size(line) * 10 + k
  {
    hide Size, Digit;
    var small, large := "0123456789abcdef"[k], "0123456789ABCDEF"[k];
    SmallDigit(k);
    LargeDigit(k);
    OneMoreCounts(line, small);
    OneMoreCounts(line, large);
  }

  lemma SmallDigit(k: nat)
    requires k < 16
    ensures Digit("0123456789abcdef"[k]) == Some(k)
  {
  }

  lemma LargeDigit(k: nat)
    requires k < 16
    ensures Digit("0123456789ABCDEF"[k]) == Some(k)
  {
  }

  /** Any other character is skipped. */
  lemma SizeSkipsOthers(line: string, ch: char)
    requires !('0' <= ch <= '9') && !('a' <= ch <= 'f') && !('A' <= ch <= 'F')
    ensures Size(line + [ch]) == Size(line)
  {
    OneMoreCounts(line, ch);
  }

  lemma OneMoreCounts(line: string, ch: char)
    ensures Size(line + [ch]) == Accumulate(Size(line), ch)
  {
    assert (line + [ch])[..|line|] == line;
  }

  predicate HexDigits(line: string) {
    forall i :: 0 <= i < |line| ==> Digit(line[i]).Some?
  }

  /** The size the decoder reads is never more than the hexadecimal size, and equals it
      exactly when all digits but the last are zero -- for sizes below 16. */
  lemma {:induction false} SizeAgainstHex(line: string)
    requires HexDigits(line)
    ensures Size(line) <= HexSize(line)
    ensures Size(line) == HexSize(line) <==> forall i :: 0 <= i < |line| - 1 ==> Digit(line[i]) == Some(0)
    ensures Size(line) == HexSize(line) <==> HexSize(line) < 16
    ensures HexSize(line) == 0 <==> forall i :: 0 <= i < |line| ==> Digit(line[i]) == Some(0)
  {
    if line != "" {
      var init := line[..|line| - 1];
      SizeAgainstHex(init);
      assert forall i :: 0 <= i < |init| ==> init[i] == line[i];
    }
  }

  predicate DigitFree(line: string) {
    forall i :: 0 <= i < |line| ==> Digit(line[i]).None?
  }

  /** What follows the size on its line only adds to it: not at all exactly when it holds
      nothing that counts as a digit, and tenfold at least otherwise. */
  lemma {:induction false} SizeWithExtension(digits: string, ext: string)
    ensures DigitFree(ext) ==> Size(digits + ext) == Size(digits)
    ensures !DigitFree(ext) ==> Size(digits + ext) >= Size(digits) * 10
    decreases |ext|
  {
    if ext == "" {
      assert digits + ext == digits;
    } else {
      var line, init := digits + ext, ext[..|ext| - 1];
      assert line[..|line| - 1] == digits + init && line[|line| - 1] == ext[|ext| - 1];
      assert forall i :: 0 <= i < |init| ==> init[i] == ext[i];
      SizeWithExtension(digits, init);
    }
  }

  /** A chunk announced as the standard asks -- its length in hexadecimal, perhaps with a
      chunk extension -- and what the code makes of it.  Below 16 bytes it is understood
      exactly when the extension holds no character from 0-9, a-f and A-F; with such an
      extension, or none, exactly when the chunk holds fewer than 16 bytes. */
  lemma StandardChunkIsAnnounced(c: Chunk, digits: string, ext: string)
    requires c.line == digits + ext && HexDigits(digits) && NoEol(c.line)
    requires c.data != "" && HexSize(digits) == |c.data|
    ensures |c.data| < 16 ==> (Announced(c) <==> DigitFree(ext))
    ensures DigitFree(ext) ==> (Announced(c) <==> |c.data| < 16)
  {
    SizeAgainstHex(digits);
    SizeWithExtension(digits, ext);
  }

  /** "5;a" announces 5 bytes and is read as 60. */
  lemma ExtensionIsCounted(c: Chunk)
    requires c.line == "5;a" && |c.data| == 5
    ensures HexSize("5") == |c.data| && Size(c.line) == 60 && !Announced(c)
  {
    assert c.line[..2] == "5;" && "5;"[..1] == "5" && "5"[..0] == "";
    assert Size("5;") == Size("5") == 5;
  }

  /** Beyond that the two errors can cancel: "112308;0" announces 0x112308 bytes and is
      read as just as many. */
  lemma ErrorsCanCancel(c: Chunk)
    requires c.line == "112308;0" && |c.data| == 0x112308
    ensures HexSize("112308") == |c.data| && Announced(c)
  {
    DecimalOfExample();
    HexOfExample();
    assert c.line[..7] == "112308;" && "112308;"[..6] == "112308";
  }

  lemma DecimalOfExample()
    ensures Size("112308") == 112308
  {
    assert "112308"[..5] == "11230" && "11230"[..4] == "1123" && "1123"[..3] == "112" && "112"[..2] == "11";
    assert "11"[..1] == "1" && "1"[..0] == "";
    assert Size("11") == 11;
    assert Size("1123") == 1123;
  }

  lemma HexOfExample()
    ensures HexSize("112308") == 0x112308
  {
    assert "112308"[..5] == "11230" && "11230"[..4] == "1123" && "1123"[..3] == "112" && "112"[..2] == "11";
    assert "11"[..1] == "1" && "1"[..0] == "";
    assert HexSize("11") == 0x11;
    assert HexSize("1123") == 0x1123;
  }
}
