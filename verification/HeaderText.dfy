/** Header lines as HttpBuf::parse_headers and parse_xheaders take them apart, and the
    printer they invert. */
module HeaderText {
  import opened CStrings
  import opened CaseFold
  import opened Chunked
  import opened HeaderEnd
  import opened Options

  datatype Field = Field(name: string, value: string)

  // ---- the C library calls ------------------------------------------------------

  const BLANKS: set<char> := {' ', '\t', 8 as char}

  predicate IsBlank(ch: char) { ch in BLANKS }

  /** strspn(s, " \t\b") */
  function Blanks(s: string): nat { SpanEnd(s, 0, BLANKS) }

  /** strcspn(s, " \t\b") */
  function NonBlanks(s: string): nat { CSpanEnd(s, 0, BLANKS) }

  /** The line with everything from the first CR, LF or NUL on cut off. */
  function Cut(s: string): string { s[..CSpanEnd(s, 0, {'\r', '\n', '\0'})] }

  /** strchr(s, ':'), or |s|. */
  function Colon(s: string): nat { CSpanEnd(s, 0, {':'}) }

  /** The first LF at or after i, or |t|. */
  function NextLf(t: string, i: nat): (n: nat)
    requires i <= |t|
    ensures i <= n <= |t| && (n < |t| ==> t[n] == '\n')
    decreases |t| - i
  {
    if i == |t| || t[i] == '\n' then i else NextLf(t, i + 1)
  }

  /** istream::getline(buf, maxhdr): at most maxhdr - 1 characters, the LF not stored. */
  datatype Line = Line(text: string, next: nat, eof: bool, failed: bool)

  function GetLine(t: string, i: nat, maxhdr: nat): (l: Line)
    requires i <= |t| && maxhdr >= 1
    ensures i <= l.next <= |t|
    ensures !l.eof && !l.failed ==> i < l.next
  {
    var end := NextLf(t, i);
    if end - i > maxhdr - 1 then Line(t[i..i + maxhdr - 1], i + maxhdr - 1, false, true)
    else if end == |t| then Line(t[i..end], end, true, i == end)
    else Line(t[i..end], end + 1, false, false)
  }

  const SPACES: set<char> := {' ', '\t', '\n', 11 as char, 12 as char, '\r'}

  /** strtoul(s, nullptr, 10) */
  function StrToUl(s: string): (length: nat)
    ensures length < SIZE_T
  {
    var s := s[SpanEnd(s, 0, SPACES)..];
    var signed := s != "" && (s[0] == '+' || s[0] == '-');
    var n := DigitsValue(s[if signed then 1 else 0..], 0);
    if n >= SIZE_T then SIZE_T - 1
    else if signed && s[0] == '-' then (SIZE_T - n) % SIZE_T
    else n
  }

  function DigitsValue(s: string, n: nat): nat
    decreases |s|
  {
    if s == "" || !('0' <= s[0] <= '9') then n else DigitsValue(s[1..], n * 10 + (s[0] as int - '0' as int))
  }

  // ---- taking lines apart --------------------------------------------------------

  /** The first token of a text, and the text from the second token on. */
  function TakeToken(s: string): (string, string) {
    var rest := s[NonBlanks(s)..];
    (s[..NonBlanks(s)], rest[Blanks(rest)..])
  }

  /** A header value: leading blanks skipped, cut at the next blank. */
  function Trim(s: string): string {
    TakeToken(s[Blanks(s)..]).0
  }

  function ParseField(line: string): Field {
    var colon := Colon(line);
    if colon == |line| then Field(line, "") else Field(line[..colon], Trim(line[colon + 1..]))
  }

  datatype Request = Request(reqtype: string, path: string, httpvers: string)

  function ParseRequest(line: string): Request {
    var (reqtype, rest1) := TakeToken(line);
    var (path, rest2) := TakeToken(rest1);
    Request(reqtype, path, TakeToken(rest2).0)
  }

  /** Fields read from position i, where reading stopped, and the stream's state then. */
  datatype Parsed = Parsed(fields: seq<Field>, stop: nat, eof: bool, failed: bool)

  /** The read loop: one field a line until an empty line, an over-long one, the end of
      the text or position limit (if it has one). */
  function ReadFields(t: string, i: nat, limit: Option<int>, maxhdr: nat): (p: Parsed)
    requires i <= |t| && maxhdr >= 1
    ensures i <= p.stop <= |t|
    decreases |t| - i
  {
    if limit.Some? && i >= limit.value then Parsed([], i, false, false)
    else
      var l := GetLine(t, i, maxhdr);
      var line := Cut(l.text);
      if line == "" || l.failed then Parsed([], l.next, l.eof, l.failed)
      else if l.eof then Parsed([ParseField(line)], l.next, true, true)
      else
        var rest := ReadFields(t, l.next, limit, maxhdr);
        rest.(fields := [ParseField(line)] + rest.fields)
  }

  datatype Head = Head(request: Option<Request>, parsed: Parsed)

  function ParseHead(t: string, maxhdr: nat): Head
    requires maxhdr >= 1
  {
    var l := GetLine(t, 0, maxhdr);
    var line := Cut(l.text);
    if line == "" || l.failed then Head(None, Parsed([], l.next, l.eof, l.failed))
    else if l.eof then Head(Some(ParseRequest(line)), Parsed([], l.next, true, true))
    else Head(Some(ParseRequest(line)), ReadFields(t, l.next, None, maxhdr))
  }

  /** Reading stops, without another field, at a line with no text before its first CR, LF or
      NUL, at one too long, and at the limit. */
  lemma NoMoreFields(t: string, i: nat, limit: Option<int>, maxhdr: nat)
    requires i <= |t| && maxhdr >= 1
    requires (limit.Some? && i >= limit.value) || Cut(GetLine(t, i, maxhdr).text) == "" || GetLine(t, i, maxhdr).failed
    ensures ReadFields(t, i, limit, maxhdr).fields == []
    ensures limit.None? ==> ParseHead(t[i..], maxhdr).request.None? && ParseHead(t[i..], maxhdr).parsed.fields == []
  {
    if limit.None? {
      SameLineBehind(t, i, maxhdr);
    }
  }

  lemma SameLineBehind(t: string, i: nat, maxhdr: nat)
    requires i <= |t| && maxhdr >= 1
    ensures var l, m := GetLine(t, i, maxhdr), GetLine(t[i..], 0, maxhdr);
            m == l.(next := l.next - i)
  {
    NextLfBehind(t, i, i);
  }

  lemma {:induction false} NextLfBehind(t: string, i: nat, j: nat)
    requires i <= j <= |t|
    ensures NextLf(t[i..], j - i) == NextLf(t, j) - i
    decreases |t| - j
  {
    if j < |t| && t[j] != '\n' {
      NextLfBehind(t, i, j + 1);
    }
  }

  /** A last line that the text ends in the middle of still gives its field, or request, and
      the stream fails. */
  lemma LastLineUnended(t: string, i: nat, limit: Option<int>, maxhdr: nat)
    requires i < |t| && |t| - i <= maxhdr - 1 && (forall k :: i <= k < |t| ==> t[k] != '\n')
    requires Cut(t[i..]) != "" && (limit.Some? ==> i < limit.value)
    ensures ReadFields(t, i, limit, maxhdr) == Parsed([ParseField(Cut(t[i..]))], |t|, true, true)
    ensures ParseHead(t[i..], maxhdr) == Head(Some(ParseRequest(Cut(t[i..]))), Parsed([], |t| - i, true, true))
  {
    GetLineReads(t, i, maxhdr);
    SameLineBehind(t, i, maxhdr);
  }

  // ---- looking names up ------------------------------------------------------------

  /** find() in an unordered container keyed with s_casehash and s_casecmp. */
  predicate Finds(key: string, name: string) {
    Hash(key) == Hash(name) && SameKey(key, name)
  }

  predicate HasField(headers: multiset<Field>, key: string) {
    exists f :: f in headers && Finds(f.name, key)
  }

  const FORBIDDEN: seq<string> := [
    "Transfer-Encoding", "Content-Length", "Host", "Cache-Control",
    "Expect", "Max-Forwards", "Pragma", "Range"]

  predicate Forbidden(name: string) {
    exists k :: 0 <= k < |FORBIDDEN| && Finds(FORBIDDEN[k], name)
  }

  function Allowed(fields: seq<Field>): seq<Field> {
    if fields == [] then []
    else (if Forbidden(fields[0].name) then [] else [fields[0]]) + Allowed(fields[1..])
  }

  lemma {:induction false} AllowedAppend(a: seq<Field>, b: seq<Field>)
    ensures Allowed(a + b) == Allowed(a) + Allowed(b)
  {
    if a == [] {
      assert a + b == b;
    } else {
      var head := if Forbidden(a[0].name) then [] else [a[0]];
      assert (a + b)[0] == a[0] && (a + b)[1..] == a[1..] + b;
      AllowedAppend(a[1..], b);
      assert head + (Allowed(a[1..]) + Allowed(b)) == (head + Allowed(a[1..])) + Allowed(b);
    }
  }

  lemma AllowedOne(f: Field)
    ensures Allowed([f]) == if Forbidden(f.name) then [] else [f]
  {
    assert [f][1..] == [];
  }

  /** Lookup by hash and comparison finds exactly the names that are equal but for case,
      because header names come from C strings and so hold no NUL. */
  lemma FindsIgnoringCase(key: string, name: string)
    requires NulFree(key) && NulFree(name)
    ensures Finds(key, name) <==> SameLetters(key, name)
  {
    CStrIsPrefix(key);
    CStrIsPrefix(name);
    SameKeyIsCase(key, name);
    if SameKey(key, name) {
      SameKeyHash(key, name);
    }
  }

  /** The filter on trailer fields stops these eight names, in any case, and no other. */
  lemma ForbiddenIgnoresCase(name: string)
    requires NulFree(name)
    ensures Forbidden(name) <==>
            || SameLetters("Transfer-Encoding", name) || SameLetters("Content-Length", name)
            || SameLetters("Host", name) || SameLetters("Cache-Control", name)
            || SameLetters("Expect", name) || SameLetters("Max-Forwards", name)
            || SameLetters("Pragma", name) || SameLetters("Range", name)
  {
    hide SameLetters, Finds;
    forall k | 0 <= k < |FORBIDDEN|
      ensures Finds(FORBIDDEN[k], name) <==> SameLetters(FORBIDDEN[k], name)
    {
      ForbiddenAreNulFree(k);
      FindsIgnoringCase(FORBIDDEN[k], name);
    }
    assert FORBIDDEN[0] == "Transfer-Encoding" && FORBIDDEN[1] == "Content-Length" && FORBIDDEN[2] == "Host";
    assert FORBIDDEN[3] == "Cache-Control" && FORBIDDEN[4] == "Expect" && FORBIDDEN[5] == "Max-Forwards";
    assert FORBIDDEN[6] == "Pragma" && FORBIDDEN[7] == "Range";
  }

  lemma ForbiddenAreNulFree(k: nat)
    requires k < |FORBIDDEN|
    ensures NulFree(FORBIDDEN[k])
  {
    assert NulFree("Transfer-Encoding") && NulFree("Content-Length") && NulFree("Host") && NulFree("Cache-Control");
    assert NulFree("Expect") && NulFree("Max-Forwards") && NulFree("Pragma") && NulFree("Range");
  }

  // ---- the printer -------------------------------------------------------------------

  /** No character that ends a line or a C string. */
  predicate PlainText(s: string) {
    forall i :: 0 <= i < |s| ==> !IsEol(s[i]) && s[i] != '\0'
  }

  predicate BlankFree(s: string) {
    forall i :: 0 <= i < |s| ==> !IsBlank(s[i])
  }

  predicate ColonFree(s: string) {
    forall i :: 0 <= i < |s| ==> s[i] != ':'
  }

  predicate PlainField(f: Field) { PlainText(f.name) && PlainText(f.value) }

  predicate PlainRequest(r: Request) { PlainText(r.reqtype) && PlainText(r.path) && PlainText(r.httpvers) }

  /** The fields that are read back as they were printed. */
  predicate GoodField(f: Field) { ColonFree(f.name) && BlankFree(f.value) }

  function PrintField(f: Field): string { f.name + ": " + f.value }

  function PrintFields(fields: seq<Field>): seq<string> {
    seq(|fields|, i requires 0 <= i < |fields| => PrintField(fields[i]))
  }

  function PrintRequest(r: Request): string { r.reqtype + " " + r.path + " " + r.httpvers }

  /** The requests that are read back as they were printed: blank-free tokens, of which
      only the first and the last ones may be empty. */
  predicate GoodRequest(r: Request) {
    BlankFree(r.reqtype) && BlankFree(r.path) && BlankFree(r.httpvers) && (r.path == "" ==> r.httpvers == "")
  }

  /** What comes back of a printed field: the name up to a colon in it, and the first word
      of the value -- of what follows that colon, if there is one. */
  function AsRead(f: Field): Field {
    var k := Colon(f.name);
    if k == |f.name| then Field(f.name, Trim(f.value))
    else Field(f.name[..k], Trim(f.name[k + 1..] + ": " + f.value))
  }

  function AllRead(fields: seq<Field>): seq<Field> {
    seq(|fields|, i requires 0 <= i < |fields| => AsRead(fields[i]))
  }

  /** The line, with a CR at its end if there is one, fits the buffer. */
  predicate Short(line: string, eol: string, maxhdr: nat) { |line| + |eol| <= maxhdr }

  // ---- single lines -------------------------------------------------------------------

  /** What is cut off a line begins with its first CR, LF or NUL. */
  lemma CutEndsAtEol(s: string)
    ensures Cut(s) <= s && PlainText(Cut(s))
    ensures |Cut(s)| < |s| ==> var ch := s[|Cut(s)|]; ch == '\r' || ch == '\n' || ch == '\0'
  {
  }

  lemma CutPlain(s: string, more: string)
    requires PlainText(s) && (more == "" || IsEol(more[0]) || more[0] == '\0')
    ensures Cut(s + more) == s
  {
    CSpanEndsAt(s + more, 0, |s|, {'\r', '\n', '\0'});
  }

  /** Where the first LF from i on stands, if there is one. */
  predicate LfAt(t: string, i: nat, n: nat) {
    i <= n < |t| && t[n] == '\n' && forall k :: i <= k < n ==> t[k] != '\n'
  }

  lemma {:induction false} NextLfIsFirst(t: string, i: nat)
    requires i <= |t|
    ensures forall k :: i <= k < NextLf(t, i) ==> t[k] != '\n'
    decreases |t| - i
  {
    if i < |t| && t[i] != '\n' {
      NextLfIsFirst(t, i + 1);
    }
  }

  /** istream::getline in full, for every text: a line is delivered whole, without its LF,
      exactly when its LF comes within maxhdr - 1 characters; the text's last characters
      are delivered, at its end, exactly when they are no more than that; and otherwise
      maxhdr - 1 characters are and the stream fails. */
  lemma GetLineReads(t: string, i: nat, maxhdr: nat)
    requires i <= |t| && maxhdr >= 1
    ensures var l := GetLine(t, i, maxhdr);
            && (!l.eof && !l.failed <==> exists n: nat :: LfAt(t, i, n) && n - i <= maxhdr - 1)
            && (forall n: nat :: LfAt(t, i, n) && n - i <= maxhdr - 1 ==> l.text == t[i..n] && l.next == n + 1)
            && (l.eof <==> |t| - i <= maxhdr - 1 && forall k :: i <= k < |t| ==> t[k] != '\n')
            && (l.eof ==> l.text == t[i..] && l.next == |t| && (l.failed <==> i == |t|))
            && (l.failed && !l.eof ==> l.text == t[i..i + maxhdr - 1] && l.next == i + maxhdr - 1)
  {
    NextLfIsFirst(t, i);
    var n := NextLf(t, i);
    if n < |t| {
      assert LfAt(t, i, n);
      assert forall m: nat :: LfAt(t, i, m) ==> m == n;
    } else {
      assert t[i..n] == t[i..];
    }
  }

  lemma JoinSplits(a: string, b: string)
    ensures (a + b)[..|a|] == a && (a + b)[|a|..] == b
  {
  }

  /** Blanks are space, tab and backspace. */
  lemma BlanksAre(ch: char)
    ensures IsBlank(ch) <==> ch as int == 32 || ch as int == 9 || ch as int == 8
  {
  }

  predicate AllBlank(s: string) {
    forall i :: 0 <= i < |s| ==> IsBlank(s[i])
  }

  /** A token, blanks -- at least one if more follows -- and more text. */
  predicate FirstToken(s: string, token: string, blanks: string, more: string) {
    && s == token + (blanks + more)
    && BlankFree(token) && AllBlank(blanks)
    && (more == "" || !IsBlank(more[0])) && (blanks == "" ==> more == "")
  }

  lemma TakeFirstToken(s: string, token: string, blanks: string, more: string)
    requires FirstToken(s, token, blanks, more)
    ensures TakeToken(s) == (token, more)
  {
    var rest := blanks + more;
    assert s[|token|..] == rest;
    CSpanEndsAt(s, 0, |token|, BLANKS);
    JoinSplits(token, rest);
    SpanEndsAt(rest, 0, |blanks|, BLANKS);
    JoinSplits(blanks, more);
  }

  /** Every line of three tokens, with any blanks between them and anything behind: the
      method, the path and the version are these.  Missing ones are empty. */
  lemma ParseRequestReads(line: string, reqtype: string, b1: string, path: string, b2: string, httpvers: string,
                          b3: string, more1: string, more2: string, more3: string)
    requires FirstToken(line, reqtype, b1, more1) && FirstToken(more1, path, b2, more2)
    requires FirstToken(more2, httpvers, b3, more3)
    ensures ParseRequest(line) == Request(reqtype, path, httpvers)
  {
    hide FirstToken, TakeToken;
    TakeFirstToken(line, reqtype, b1, more1);
    TakeFirstToken(more1, path, b2, more2);
    TakeFirstToken(more2, httpvers, b3, more3);
  }

  /** A line without a colon is a name, with no value. */
  lemma ParseNameOnly(line: string)
    requires ColonFree(line)
    ensures ParseField(line) == Field(line, "")
  {
    CSpanEndsAt(line, 0, |line|, {':'});
  }

  /** Of every other line the name is what stands before the first colon, and the value the
      first word behind it. */
  lemma ParseFieldReads(line: string, name: string, blanks: string, word: string, rest: string)
    requires line == name + (":" + (blanks + (word + rest)))
    requires ColonFree(name) && AllBlank(blanks) && BlankFree(word)
    requires (rest == "" || IsBlank(rest[0])) && (word == "" ==> rest == "")
    ensures ParseField(line) == Field(name, word)
  {
    hide Trim, AllBlank, BlankFree, IsBlank;
    var value := blanks + (word + rest);
    ColonStands(line, name, value);
    TrimReads(value, blanks, word, rest);
  }

  lemma ColonStands(line: string, name: string, value: string)
    requires line == name + (":" + value) && ColonFree(name)
    ensures Colon(line) == |name| < |line| && line[..|name|] == name && line[|name| + 1..] == value
  {
    assert forall i :: 0 <= i < |name| ==> line[i] == name[i];
    CSpanEndsAt(line, 0, |name|, {':'});
  }

  lemma TrimReads(value: string, blanks: string, word: string, rest: string)
    requires value == blanks + (word + rest) && AllBlank(blanks) && BlankFree(word)
    requires (rest == "" || IsBlank(rest[0])) && (word == "" ==> rest == "")
    ensures Trim(value) == word
  {
    SpanEndsAt(value, 0, |blanks|, BLANKS);
    var s := word + rest;
    assert value[|blanks|..] == s;
    CSpanEndsAt(s, 0, |word|, BLANKS);
    assert s[..|word|] == word;
  }

  /** The first word of a value: blanks before it, a blank or nothing after it.  The value
      itself exactly when that has no blanks. */
  lemma TrimIsFirstWord(value: string)
    ensures var b, word := Blanks(value), Trim(value);
            && b + |word| <= |value| && value[b..b + |word|] == word && BlankFree(word)
            && (forall i :: 0 <= i < b ==> IsBlank(value[i]))
            && (b + |word| == |value| || IsBlank(value[b + |word|]))
    ensures Trim(value) == value <==> BlankFree(value)
  {
    var rest := value[Blanks(value)..];
    assert forall i :: 0 <= i < |Trim(value)| ==> rest[i] == Trim(value)[i];
    if BlankFree(value) {
      SpanEndsAt(value, 0, 0, BLANKS);
      assert rest == value;
      CSpanEndsAt(value, 0, |value|, BLANKS);
    }
  }

  lemma TrimAfterBlank(value: string)
    ensures Trim(" " + value) == Trim(value)
  {
    hide TakeToken;
    var b, s := Blanks(value), " " + value;
    assert forall i :: 1 <= i < |s| ==> s[i] == value[i - 1];
    SpanEndsAt(s, 0, b + 1, BLANKS);
    assert s[b + 1..] == value[b..];
  }

  /** A printed field is read as AsRead says, and that is the field itself exactly when
      its name has no colon and its value no blank. */
  lemma ParsePrintedField(f: Field)
    ensures ParseField(PrintField(f)) == AsRead(f)
    ensures AsRead(f) == f <==> GoodField(f)
  {
    PrintedColon(f);
    ReadBackExactly(f);
  }

  lemma PrintedColon(f: Field)
    ensures ParseField(PrintField(f)) == AsRead(f)
  {
    hide Trim;
    var line, k := PrintField(f), Colon(f.name);
    assert forall i :: 0 <= i < |f.name| ==> line[i] == f.name[i];
    assert line[|f.name|] == ':';
    CSpanEndsAt(line, 0, k, {':'});
    assert line[..k] == f.name[..k];
    if k == |f.name| {
      assert line[k + 1..] == " " + f.value;
      TrimAfterBlank(f.value);
    } else {
      assert line[k + 1..] == f.name[k + 1..] + ": " + f.value;
    }
  }

  lemma ReadBackExactly(f: Field)
    ensures AsRead(f) == f <==> GoodField(f)
  {
    hide Trim;
    TrimIsFirstWord(f.value);
    var k := Colon(f.name);
    if k < |f.name| {
      assert f.name[k] == ':' && |f.name[..k]| < |f.name|;
    }
  }

  /** Such as a value of two words, of which the first comes back. */
  lemma ValueIsCutAtBlank(f: Field)
    requires f == Field("Date", "Mon 1")
    ensures PrintField(f) == "Date: Mon 1"
    ensures ParseField("Date: Mon 1") == Field("Date", "Mon") != f
  {
    hide ParseField, AsRead, GoodField;
    ParsePrintedField(f);
    FirstOfTwo(f.name, f.value, "Mon", "1");
    assert PrintField(f) == f.name + (": " + f.value) == "Date: Mon 1";
  }

  lemma FirstOfTwo(name: string, value: string, first: string, second: string)
    requires ColonFree(name) && value == first + " " + second && first != "" && BlankFree(first)
    ensures AsRead(Field(name, value)) == Field(name, first)
  {
    CSpanEndsAt(name, 0, |name|, {':'});
    assert value[0] == first[0];
    SpanEndsAt(value, 0, 0, BLANKS);
    assert value[0..] == value;
    CSpanEndsAt(value, 0, |first|, BLANKS);
  }

  lemma PrintedFieldIsPlain(f: Field)
    requires PlainField(f)
    ensures PlainText(PrintField(f)) && PrintField(f) != ""
  {
  }

  lemma PrintedRequestIsPlain(r: Request)
    requires PlainRequest(r)
    ensures PlainText(PrintRequest(r)) && PrintRequest(r) != ""
  {
  }

  lemma TokenIsBlankFree(s: string)
    ensures BlankFree(TakeToken(s).0)
  {
    assert forall i :: 0 <= i < NonBlanks(s) ==> s[..NonBlanks(s)][i] == s[i];
  }

  /** A printed request line is read back exactly when it is three blank-free tokens. */
  lemma ParsePrintedRequest(r: Request)
    ensures ParseRequest(PrintRequest(r)) == r <==> GoodRequest(r)
  {
    hide TakeToken;
    var (reqtype, rest1) := TakeToken(PrintRequest(r));
    var (path, rest2) := TakeToken(rest1);
    TokenIsBlankFree(PrintRequest(r));
    TokenIsBlankFree(rest1);
    TokenIsBlankFree(rest2);
    if BlankFree(r.reqtype) && BlankFree(r.path) && BlankFree(r.httpvers) {
      BlankFreeRequest(r);
    }
  }

  lemma BlankFreeRequest(r: Request)
    requires BlankFree(r.reqtype) && BlankFree(r.path) && BlankFree(r.httpvers)
    ensures ParseRequest(PrintRequest(r))
            == if r.path == "" then Request(r.reqtype, r.httpvers, "") else r
  {
    hide TakeToken, ParseRequest;
    var line, v := PrintRequest(r), r.httpvers;
    assert FirstToken("", "", "", "");
    assert v == v + ("" + "") && FirstToken(v, v, "", "");
    if r.path == "" {
      assert line == r.reqtype + ("  " + v);
      if v == "" {
        assert FirstToken(line, r.reqtype, "  ", "");
      }
      ParseRequestReads(line, r.reqtype, "  ", v, "", "", "", v, "", "");
    } else {
      var p := r.path + (" " + v);
      assert line == r.reqtype + (" " + p) && p[0] == r.path[0];
      assert FirstToken(p, r.path, " ", v);
      ParseRequestReads(line, r.reqtype, " ", r.path, " ", v, "", p, v, "");
    }
  }

  // ---- the round trips -------------------------------------------------------------------

  /** Reading a printed line, whichever way it ends. */
  lemma ReadPrintedLine(t: string, i: nat, line: string, eol: string, maxhdr: nat)
    requires LineEnd(eol) && PlainText(line) && Stands(t, i, line + eol) && Short(line, eol, maxhdr)
    ensures var l := GetLine(t, i, maxhdr);
            Cut(l.text) == line && l.next == i + |line| + |eol| && !l.eof && !l.failed
  {
    hide GetLine, NextLf, Cut;
    var n := i + |line| + |eol| - 1;
    PrintedLfAt(t, i, line, eol);
    GetLineReads(t, i, maxhdr);
    assert t[i..n] == t[i..i + |line| + |eol|][..n - i] == line + eol[..|eol| - 1];
    CutPlain(line, eol[..|eol| - 1]);
  }

  lemma PrintedLfAt(t: string, i: nat, line: string, eol: string)
    requires LineEnd(eol) && PlainText(line) && Stands(t, i, line + eol)
    ensures LfAt(t, i, i + |line| + |eol| - 1)
  {
    assert line + eol == line + eol + "";
    LineStands(t, i, line, eol, "");
    var e := i + |line|;
    assert t[e..e + |eol|][|eol| - 1] == '\n';
    assert |eol| == 2 ==> t[e..e + |eol|][0] == '\r';
    forall k | i <= k < e + |eol| - 1 ensures t[k] != '\n' {
      if k < e {
        assert t[i + (k - i)] == line[k - i];
      }
    }
  }

  /** The printed fields and the empty line after them. */
  function PrintBlock(fields: seq<Field>, eol: string): string { EncodeLines(PrintFields(fields), eol) + eol }

  lemma BlockSplits(fields: seq<Field>, eol: string)
    ensures fields == [] ==> PrintBlock(fields, eol) == "" + eol
    ensures fields != [] ==> PrintBlock(fields, eol) == PrintField(fields[0]) + eol + PrintBlock(fields[1..], eol)
  {
    if fields != [] {
      var lines := PrintFields(fields);
      assert lines[1..] == PrintFields(fields[1..]);
      assert EncodeLines(lines, eol) == lines[0] + eol + EncodeLines(lines[1..], eol);
    }
  }

  ghost predicate PlainFields(fields: seq<Field>) {
    forall f :: f in fields ==> PlainField(f)
  }

  ghost predicate ShortFields(fields: seq<Field>, eol: string, maxhdr: nat) {
    forall f :: f in fields ==> Short(PrintField(f), eol, maxhdr)
  }

  /** Exactly these fields were read, and reading stopped at `end` -- or, with a limit,
      there or before it. */
  ghost predicate ReadsBack(p: Parsed, fields: seq<Field>, end: nat, limit: Option<int>) {
    p.fields == fields && !p.eof && !p.failed && p.stop <= end && (limit.None? ==> p.stop == end)
  }

  /** From the start of the last field's line to the end of the block. */
  function LastLine(fields: seq<Field>, eol: string): nat
    requires fields != []
  {
    |PrintField(fields[|fields| - 1])| + 2 * |eol|
  }

  /** The position limit lies beyond the start of the last field's line. */
  predicate Within(limit: Option<int>, i: nat, fields: seq<Field>, eol: string) {
    limit.Some? && fields != [] ==> limit.value > i + |PrintBlock(fields, eol)| - LastLine(fields, eol)
  }

  lemma {:induction false} BlockHoldsLast(fields: seq<Field>, eol: string)
    requires fields != []
    ensures |PrintBlock(fields, eol)| >= LastLine(fields, eol)
    ensures |fields| > 1 ==> LastLine(fields, eol) == LastLine(fields[1..], eol)
    ensures |fields| == 1 ==> |PrintBlock(fields, eol)| == LastLine(fields, eol)
  {
    BlockSplits(fields, eol);
    if |fields| == 1 {
      BlockSplits(fields[1..], eol);
    } else {
      BlockHoldsLast(fields[1..], eol);
    }
  }

  /** The fields before the first one whose line is too long. */
  function BeforeLong(fields: seq<Field>, eol: string, maxhdr: nat): (r: seq<Field>)
    ensures r <= fields && (forall f :: f in r ==> Short(PrintField(f), eol, maxhdr))
    ensures |r| < |fields| ==> !Short(PrintField(fields[|r|]), eol, maxhdr)
  {
    if fields == [] || !Short(PrintField(fields[0]), eol, maxhdr) then []
    else [fields[0]] + BeforeLong(fields[1..], eol, maxhdr)
  }

  /** What reading printed fields comes to: all of them, or those before the first line that
      is too long, which fails the stream. */
  ghost predicate ReadsBlock(p: Parsed, fields: seq<Field>, eol: string, end: nat, limit: Option<int>, maxhdr: nat) {
    if ShortFields(fields, eol, maxhdr) then ReadsBack(p, AllRead(fields), end, limit)
    else p.failed && p.fields == AllRead(BeforeLong(fields, eol, maxhdr))
  }

  /** Printed fields and their empty line are read as AsRead says, unless a line is too
      long for the buffer, which fails the stream; for this a position limit must lie
      beyond the start of the last line. */
  lemma {:induction false} ParsePrintedFields(t: string, i: nat, fields: seq<Field>, eol: string, limit: Option<int>,
                                              maxhdr: nat)
    requires LineEnd(eol) && maxhdr >= 2 && PlainFields(fields)
    requires Stands(t, i, PrintBlock(fields, eol))
    requires Within(limit, i, fields, eol)
    ensures ReadsBlock(ReadFields(t, i, limit, maxhdr), fields, eol, i + |PrintBlock(fields, eol)|, limit, maxhdr)
    decreases |fields|
  {
    if fields == [] {
      BlockSplits(fields, eol);
      EmptyLineStops(t, i, eol, limit, maxhdr);
    } else {
      var next, end := BlockStands(t, i, fields, eol);
      BlockHoldsLast(fields, eol);
      assert fields[0] in fields && PlainFields(fields[1..]);
      ParsePrintedFields(t, next, fields[1..], eol, limit, maxhdr);
      FirstFieldReads(t, i, fields, eol, next, end, limit, maxhdr);
    }
  }

  /** With a limit at or before the start of the last line, that line is not read. */
  lemma {:induction false} LastIsMissed(t: string, i: nat, fields: seq<Field>, eol: string, limit: int, maxhdr: nat)
    requires LineEnd(eol) && maxhdr >= 2 && PlainFields(fields) && ShortFields(fields, eol, maxhdr)
    requires Stands(t, i, PrintBlock(fields, eol)) && !Within(Some(limit), i, fields, eol)
    ensures |ReadFields(t, i, Some(limit), maxhdr).fields| < |fields|
    decreases |fields|
  {
    var next, end := BlockStands(t, i, fields, eol);
    ShortFirst(fields, eol, maxhdr);
    BlockHoldsLast(fields, eol);
    if i < limit {
      assert fields[0] in fields && PlainFields(fields[1..]);
      PrintedFieldIsPlain(fields[0]);
      ReadPrintedLine(t, i, PrintField(fields[0]), eol, maxhdr);
      ReadOneField(t, i, Some(limit), maxhdr, PrintField(fields[0]), next);
      LastIsMissed(t, next, fields[1..], eol, limit, maxhdr);
    }
  }

  /** Printed fields are all read if and only if the position limit lies beyond the start
      of the last line. */
  lemma AllAreReadWithin(t: string, i: nat, fields: seq<Field>, eol: string, limit: int, maxhdr: nat)
    requires LineEnd(eol) && maxhdr >= 2 && PlainFields(fields) && ShortFields(fields, eol, maxhdr)
    requires Stands(t, i, PrintBlock(fields, eol))
    ensures ReadFields(t, i, Some(limit), maxhdr).fields == AllRead(fields) <==> Within(Some(limit), i, fields, eol)
  {
    if Within(Some(limit), i, fields, eol) {
      ParsePrintedFields(t, i, fields, eol, Some(limit), maxhdr);
    } else {
      LastIsMissed(t, i, fields, eol, limit, maxhdr);
    }
  }

  lemma BlockStands(t: string, i: nat, fields: seq<Field>, eol: string) returns (next: nat, end: nat)
    requires LineEnd(eol) && fields != [] && Stands(t, i, PrintBlock(fields, eol))
    ensures next == i + |PrintField(fields[0])| + |eol| >= i + |eol|
    ensures Stands(t, i, PrintField(fields[0]) + eol) && Stands(t, next, PrintBlock(fields[1..], eol))
    ensures end == i + |PrintBlock(fields, eol)| == next + |PrintBlock(fields[1..], eol)| >= next + |eol|
  {
    BlockSplits(fields, eol);
    LineStands(t, i, PrintField(fields[0]), eol, PrintBlock(fields[1..], eol));
    next := i + |PrintField(fields[0])| + |eol|;
    end := next + |PrintBlock(fields[1..], eol)|;
  }

  lemma EmptyLineStops(t: string, i: nat, eol: string, limit: Option<int>, maxhdr: nat)
    requires LineEnd(eol) && maxhdr >= 2 && Stands(t, i, "" + eol)
    ensures var stop := if limit.Some? && i >= limit.value then i else i + |eol|;
            ReadFields(t, i, limit, maxhdr) == Parsed([], stop, false, false)
  {
    ReadPrintedLine(t, i, "", eol, maxhdr);
  }

  lemma FirstFieldReads(t: string, i: nat, fields: seq<Field>, eol: string, next: nat, end: nat, limit: Option<int>,
                        maxhdr: nat)
    requires LineEnd(eol) && fields != [] && PlainField(fields[0])
    requires Stands(t, i, PrintField(fields[0]) + eol) && next == i + |PrintField(fields[0])| + |eol|
    requires maxhdr >= 1 && (limit.Some? ==> i < limit.value)
    requires ReadsBlock(ReadFields(t, next, limit, maxhdr), fields[1..], eol, end, limit, maxhdr)
    ensures ReadsBlock(ReadFields(t, i, limit, maxhdr), fields, eol, end, limit, maxhdr)
  {
    var line := PrintField(fields[0]);
    PrintedFieldIsPlain(fields[0]);
    ShortFirst(fields, eol, maxhdr);
    if Short(line, eol, maxhdr) {
      ParsePrintedField(fields[0]);
      ReadPrintedLine(t, i, line, eol, maxhdr);
      ReadOneField(t, i, limit, maxhdr, line, next);
      RejoinFields(ReadFields(t, next, limit, maxhdr), ReadFields(t, i, limit, maxhdr), fields, eol, end, limit,
                   maxhdr);
    } else {
      LongLineFails(t, i, line, eol, maxhdr);
    }
  }

  lemma ShortFirst(fields: seq<Field>, eol: string, maxhdr: nat)
    requires fields != []
    ensures ShortFields(fields, eol, maxhdr) <==>
              Short(PrintField(fields[0]), eol, maxhdr) && ShortFields(fields[1..], eol, maxhdr)
  {
    assert fields == [fields[0]] + fields[1..];
  }

  lemma LongLineFails(t: string, i: nat, line: string, eol: string, maxhdr: nat)
    requires LineEnd(eol) && PlainText(line) && Stands(t, i, line + eol) && maxhdr >= 1 && !Short(line, eol, maxhdr)
    ensures GetLine(t, i, maxhdr).failed
  {
    PrintedLfAt(t, i, line, eol);
    GetLineReads(t, i, maxhdr);
  }

  lemma RejoinFields(rest: Parsed, p: Parsed, fields: seq<Field>, eol: string, end: nat, limit: Option<int>,
                     maxhdr: nat)
    requires fields != [] && Short(PrintField(fields[0]), eol, maxhdr)
    requires p == rest.(fields := [AsRead(fields[0])] + rest.fields)
    requires ReadsBlock(rest, fields[1..], eol, end, limit, maxhdr)
    ensures ReadsBlock(p, fields, eol, end, limit, maxhdr)
  {
    hide AsRead, Short;
    var before := BeforeLong(fields, eol, maxhdr);
    ShortFirst(fields, eol, maxhdr);
    OneMoreRead(fields);
    OneMoreRead(before);
    assert before[1..] == BeforeLong(fields[1..], eol, maxhdr);
  }

  lemma OneMoreRead(fields: seq<Field>)
    requires fields != []
    ensures AllRead(fields) == [AsRead(fields[0])] + AllRead(fields[1..])
  {
  }

  lemma ReadOneField(t: string, i: nat, limit: Option<int>, maxhdr: nat, line: string, next: nat)
    requires i <= |t| && maxhdr >= 1 && (limit.Some? ==> i < limit.value) && line != ""
    requires var l := GetLine(t, i, maxhdr); Cut(l.text) == line && !l.eof && !l.failed && l.next == next
    ensures var rest := ReadFields(t, next, limit, maxhdr);
            ReadFields(t, i, limit, maxhdr) == rest.(fields := [ParseField(line)] + rest.fields)
  {
  }

  function PrintHead(r: Request, fields: seq<Field>, eol: string): string {
    PrintRequest(r) + eol + PrintBlock(fields, eol)
  }

  /** All lines of a printed head fit the buffer. */
  ghost predicate ShortHead(r: Request, fields: seq<Field>, eol: string, maxhdr: nat) {
    Short(PrintRequest(r), eol, maxhdr) && ShortFields(fields, eol, maxhdr)
  }

  /** Main result for parse_headers, for every head of plain text, with lines that end in
      CR LF or LF, and whatever follows it.  It fails if and only if a line is too long, and
      then what was read is what stands before that line.  Otherwise each field is read as AsRead
      says, and reading stops exactly at the head's end.  The head comes back as it was
      printed if and only if, besides, the request is three blank-free tokens, no name has
      a colon and no value a blank. */
  lemma ParseInvertsPrint(t: string, r: Request, fields: seq<Field>, eol: string, maxhdr: nat)
    requires LineEnd(eol) && maxhdr >= 1 && PlainRequest(r) && PlainFields(fields) && PrintHead(r, fields, eol) <= t
    ensures ParseHead(t, maxhdr).parsed.failed <==> !ShortHead(r, fields, eol, maxhdr)
    ensures ShortHead(r, fields, eol, maxhdr) ==>
              ParseHead(t, maxhdr) == Head(Some(ParseRequest(PrintRequest(r))),
                                           Parsed(AllRead(fields), |PrintHead(r, fields, eol)|, false, false))
    ensures !ShortHead(r, fields, eol, maxhdr) ==>
              var h := ParseHead(t, maxhdr);
              if Short(PrintRequest(r), eol, maxhdr)
              then h.request == Some(ParseRequest(PrintRequest(r)))
                   && h.parsed.fields == AllRead(BeforeLong(fields, eol, maxhdr))
              else h.request.None? && h.parsed.fields == []
    ensures ParseHead(t, maxhdr) == Head(Some(r), Parsed(fields, |PrintHead(r, fields, eol)|, false, false)) <==>
              ShortHead(r, fields, eol, maxhdr) && GoodRequest(r) && (forall f :: f in fields ==> GoodField(f))
  {
    hide ParseHead, ParseRequest, PrintRequest, PrintBlock, AllRead, GoodRequest, GoodField, ShortFields, BeforeLong;
    PrintedHeadIsRead(t, r, fields, eol, maxhdr);
    ParsePrintedRequest(r);
    AllReadBack(fields);
  }

  lemma PrintedHeadIsRead(t: string, r: Request, fields: seq<Field>, eol: string, maxhdr: nat)
    requires LineEnd(eol) && maxhdr >= 1 && PlainRequest(r) && PlainFields(fields) && PrintHead(r, fields, eol) <= t
    ensures var h, line := ParseHead(t, maxhdr), PrintRequest(r);
            if !Short(line, eol, maxhdr) then h.request.None? && h.parsed.fields == [] && h.parsed.failed
            else
              && h.request == Some(ParseRequest(line))
              && ReadsBlock(h.parsed, fields, eol, |PrintHead(r, fields, eol)|, None, maxhdr)
  {
    hide ParseRequest, PrintRequest, PrintBlock, ReadFields, GetLine, ReadsBlock, Cut;
    var line, next := PrintRequest(r), |PrintRequest(r)| + |eol|;
    assert Stands(t, 0, PrintHead(r, fields, eol));
    LineStands(t, 0, line, eol, PrintBlock(fields, eol));
    PrintedRequestIsPlain(r);
    if Short(line, eol, maxhdr) {
      ParsePrintedFields(t, next, fields, eol, None, maxhdr);
      ReadPrintedLine(t, 0, line, eol, maxhdr);
      ReadRequest(t, maxhdr, line, next);
    } else {
      LongLineFails(t, 0, line, eol, maxhdr);
    }
  }

  lemma AllReadBack(fields: seq<Field>)
    ensures AllRead(fields) == fields <==> forall f :: f in fields ==> GoodField(f)
  {
    forall i | 0 <= i < |fields| ensures AllRead(fields)[i] == fields[i] <==> GoodField(fields[i]) {
      ParsePrintedField(fields[i]);
    }
    if AllRead(fields) == fields {
      forall f | f in fields ensures GoodField(f) {
        var i :| 0 <= i < |fields| && fields[i] == f;
      }
    }
  }

  lemma ReadRequest(t: string, maxhdr: nat, line: string, next: nat)
    requires maxhdr >= 1 && line != ""
    requires var l := GetLine(t, 0, maxhdr); Cut(l.text) == line && !l.eof && !l.failed && l.next == next
    ensures ParseHead(t, maxhdr) == Head(Some(ParseRequest(line)), ReadFields(t, next, None, maxhdr))
  {
  }

  // ---- the head's end, as have_end reports it ---------------------------------------------

  /** The automaton's state after a line that ended in eol. */
  function AfterLine(eol: string): State { if |eol| == 2 then S0CR2 else S1LF2 }

  lemma ScanEol(t: string, i: nat, eol: string)
    requires LineEnd(eol) && Stands(t, i, eol)
    ensures ScanFrom(S0CR1, t, i) == ScanFrom(AfterLine(eol), t, i + |eol|)
    ensures ScanFrom(AfterLine(eol), t, i) == Hit(i + |eol|, 2 * |eol|)
  {
    assert t[i] == t[i..i + |eol|][0];
    if |eol| == 2 {
      assert t[i + 1] == t[i..i + |eol|][1];
      assert ScanFrom(S0CR1, t, i) == ScanFrom(S0LF1, t, i + 1);
      assert ScanFrom(S0CR2, t, i) == ScanFrom(S0LF2, t, i + 1);
    }
  }

  lemma {:induction false} ScanLine(state: State, t: string, i: nat, line: string, eol: string, done: nat)
    requires LineEnd(eol) && done <= |line| && NoEol(line) && Stands(t, i, line + eol)
    requires state == S0CR1 || (done == 0 && line != "" && state == AfterLine(eol))
    ensures ScanFrom(state, t, i + done) == ScanFrom(AfterLine(eol), t, i + |line| + |eol|)
    decreases |line| - done
  {
    assert line + eol == line + eol + "";
    LineStands(t, i, line, eol, "");
    if done == |line| {
      ScanEol(t, i + |line|, eol);
    } else {
      assert t[i + done] == line[done];
      ScanLine(S0CR1, t, i, line, eol, done + 1);
    }
  }

  lemma ScanWholeLine(state: State, t: string, i: nat, line: string, eol: string, next: nat)
    requires LineEnd(eol) && NoEol(line) && line != "" && Stands(t, i, line + eol) && next == i + |line| + |eol|
    requires state == S0CR1 || state == AfterLine(eol)
    ensures ScanFrom(state, t, i) == ScanFrom(AfterLine(eol), t, next)
  {
    ScanLine(state, t, i, line, eol, 0);
  }

  lemma {:induction false} ScanBlock(t: string, i: nat, fields: seq<Field>, eol: string)
    requires LineEnd(eol) && Stands(t, i, PrintBlock(fields, eol)) && PlainFields(fields)
    ensures ScanFrom(AfterLine(eol), t, i) == Hit(i + |PrintBlock(fields, eol)|, 2 * |eol|)
    decreases |fields|
  {
    BlockSplits(fields, eol);
    if fields == [] {
      assert "" + eol == eol;
      ScanEol(t, i, eol);
    } else {
      var line := PrintField(fields[0]);
      assert fields[0] in fields;
      PrintedFieldIsPlain(fields[0]);
      var next := i + |line| + |eol|;
      LineStands(t, i, line, eol, PrintBlock(fields[1..], eol));
      ScanBlock(t, next, fields[1..], eol);
      ScanWholeLine(AfterLine(eol), t, i, line, eol, next);
    }
  }

  /** The end have_end reports in a printed head is the empty line parsing stops at, with
      the line end before it: CR LF CR LF or LF LF. */
  lemma PrintedHeadEnds(t: string, r: Request, fields: seq<Field>, eol: string)
    requires LineEnd(eol) && PlainRequest(r) && PlainFields(fields) && PrintHead(r, fields, eol) <= t
    ensures Scan(t) == Hit(|PrintHead(r, fields, eol)|, 2 * |eol|)
  {
    var line := PrintRequest(r);
    assert Stands(t, 0, PrintHead(r, fields, eol));
    PrintedRequestIsPlain(r);
    var next := |line| + |eol|;
    LineStands(t, 0, line, eol, PrintBlock(fields, eol));
    ScanWholeLine(S0CR1, t, 0, line, eol, next);
    ScanBlock(t, next, fields, eol);
  }

  // ---- numbers --------------------------------------------------------------------------

  function Decimal(n: nat): string {
    if n < 10 then ['0' + n as char] else Decimal(n / 10) + ['0' + (n % 10) as char]
  }

  predicate Digits(s: string) { forall i :: 0 <= i < |s| ==> '0' <= s[i] <= '9' }

  lemma {:induction false} ValueAppend(s: string, ch: char, n: nat)
    requires Digits(s) && '0' <= ch <= '9'
    ensures DigitsValue(s + [ch], n) == DigitsValue(s, n) * 10 + (ch as int - '0' as int)
    decreases |s|
  {
    if s == "" {
      assert s + [ch] == [ch] && [ch][1..] == "";
      assert DigitsValue([ch], n) == DigitsValue("", n * 10 + (ch as int - '0' as int));
    } else {
      assert (s + [ch])[0] == s[0] && (s + [ch])[1..] == s[1..] + [ch];
      ValueAppend(s[1..], ch, n * 10 + (s[0] as int - '0' as int));
    }
  }

  lemma {:induction false} DecimalValue(n: nat)
    ensures Digits(Decimal(n)) && Decimal(n) != "" && DigitsValue(Decimal(n), 0) == n
    decreases n
  {
    if n < 10 {
      assert Decimal(n)[1..] == "";
    } else {
      DecimalValue(n / 10);
      ValueAppend(Decimal(n / 10), '0' + (n % 10) as char, 0);
    }
  }

  /** White space is what strtoul skips: codes 9 to 13, and 32. */
  lemma SpacesAre(ch: char)
    ensures ch in SPACES <==> 9 <= ch as int <= 13 || ch as int == 32
  {
  }

  /** strtoul of any text: white space, perhaps a sign, decimal digits, and something else
      behind.  A minus sign takes the number from 2^64; too large a number saturates, with
      or without sign; no digits are 0. */
  lemma StrToUlReads(s: string, spaces: string, sign: string, digits: string, rest: string)
    requires s == spaces + (sign + (digits + rest))
    requires (forall i :: 0 <= i < |spaces| ==> spaces[i] in SPACES) && Digits(digits)
    requires sign == "" || sign == "+" || sign == "-"
    requires rest != "" ==> !('0' <= rest[0] <= '9')
    requires sign == digits == "" && rest != "" ==> rest[0] !in SPACES && rest[0] != '+' && rest[0] != '-'
    ensures var n := DigitsValue(digits, 0);
            StrToUl(s) == if n >= SIZE_T then SIZE_T - 1
                          else if sign == "-" && n > 0 then SIZE_T - n
                          else n
  {
    hide DigitsValue, SpanEnd;
    SpacesSkipped(s, spaces, sign + (digits + rest));
    SignTaken(sign, digits, rest);
    DigitsThenRest(digits, rest, 0);
  }

  lemma SpacesSkipped(s: string, spaces: string, number: string)
    requires s == spaces + number && (forall i :: 0 <= i < |spaces| ==> spaces[i] in SPACES)
    requires number != "" ==> number[0] !in SPACES
    ensures s[SpanEnd(s, 0, SPACES)..] == number
  {
    SpanEndsAt(s, 0, |spaces|, SPACES);
  }

  lemma SignTaken(sign: string, digits: string, rest: string)
    requires sign == "" || sign == "+" || sign == "-"
    requires Digits(digits) && (sign == digits == "" && rest != "" ==> rest[0] != '+' && rest[0] != '-')
    ensures var s := sign + (digits + rest);
            var signed := s != "" && (s[0] == '+' || s[0] == '-');
            && (signed <==> sign != "") && s[if signed then 1 else 0..] == digits + rest
            && (signed && s[0] == '-' <==> sign == "-")
  {
    assert digits != "" ==> (digits + rest)[0] == digits[0];
  }

  lemma {:induction false} DigitsThenRest(digits: string, rest: string, n: nat)
    requires Digits(digits) && (rest != "" ==> !('0' <= rest[0] <= '9'))
    ensures DigitsValue(digits + rest, n) == DigitsValue(digits, n)
    decreases |digits|
  {
    if digits == "" {
      assert digits + rest == rest;
    } else {
      assert (digits + rest)[1..] == digits[1..] + rest;
      DigitsThenRest(digits[1..], rest, n * 10 + (digits[0] as int - '0' as int));
    }
  }

  /** strtoul reads a printed length back, up to the width of an unsigned long. */
  lemma StrToUlInvertsDecimal(n: nat)
    ensures StrToUl(Decimal(n)) == if n < SIZE_T then n else SIZE_T - 1
  {
    var s := Decimal(n);
    DecimalValue(n);
    assert '0' <= s[0] <= '9';
    SpanEndsAt(s, 0, 0, SPACES);
    assert s[0..] == s;
  }
}
