/** The field tokenisers of parse.hpp: parse_fields, parse_tomap and parse_fields into a
    vector of maps. */
module Fields {
  import opened CStrings
  import opened CaseFold

  // ---- one loop under all three ------------------------------------------------------

  /** The state of a tokeniser's loop over a text: where `source` points, and the words
      taken so far. */
  datatype Cursor = Going(at: nat, words: seq<string>) | Done(words: seq<string>)

  /** Once around the loop: skip, return at the end of the text, and otherwise take the
      characters up to the next stop, if any. */
  function Round(s: string, st: Cursor, skip: set<char>, stop: set<char>): Cursor {
    if st.Done? then st
    else
      var q := SpanEnd(s, st.at, skip);
      var e := CSpanEnd(s, q, stop);
      if q >= |s| then Done(st.words)
      else Going(e, st.words + if q < e then [s[q..e]] else [])
  }

  function Rounds(s: string, st: Cursor, skip: set<char>, stop: set<char>, n: nat): Cursor
    decreases n
  {
    if n == 0 then st else Rounds(s, Round(s, st, skip, stop), skip, stop, n - 1)
  }

  /** The loop from the start of the text, n times around. */
  function Run(s: string, skip: set<char>, stop: set<char>, n: nat): Cursor {
    Rounds(s, Going(0, []), skip, stop, n)
  }

  /** From position p on, no character stops a word without being skipped afterwards. */
  predicate Passable(s: string, p: nat, skip: set<char>, stop: set<char>) {
    forall i :: p <= i < |s| && s[i] in stop ==> s[i] in skip
  }

  /** The words of a text from position p on, as far as the loop gets. */
  function Tokens(s: string, p: nat, skip: set<char>, stop: set<char>): seq<string>
    decreases |s| - p
  {
    var q := SpanEnd(s, p, skip);
    var e := CSpanEnd(s, q, stop);
    if q < e then [s[q..e]] + Tokens(s, e, skip, stop) else []
  }

  /** A round moves the next word to those taken. */
  lemma TakesWord(words: seq<string>, s: string, p: nat, q: nat, e: nat, skip: set<char>, stop: set<char>)
    requires q == SpanEnd(s, p, skip) && e == CSpanEnd(s, q, stop)
    ensures q < e ==> e <= |s| && (words + [s[q..e]]) + Tokens(s, e, skip, stop) == words + Tokens(s, p, skip, stop)
    ensures q == e ==> words + Tokens(s, p, skip, stop) == words
    ensures Passable(s, p, skip, stop) && p <= q < |s| ==> q < e
  {
    if q < e {
      assert (words + [s[q..e]]) + Tokens(s, e, skip, stop) == words + ([s[q..e]] + Tokens(s, e, skip, stop));
    }
  }

  lemma {:induction false} FinishesWithTokens(s: string, p: nat, words: seq<string>, skip: set<char>, stop: set<char>)
    returns (n: nat)
    requires Passable(s, p, skip, stop) && p <= |s|
    ensures Rounds(s, Going(p, words), skip, stop, n) == Done(words + Tokens(s, p, skip, stop))
    decreases |s| - p
  {
    var q := SpanEnd(s, p, skip);
    var e := CSpanEnd(s, q, stop);
    if q == |s| {
      n := 1;
      assert Rounds(s, Done(words), skip, stop, 0) == Done(words + []);
    } else {
      n := FinishesWithTokens(s, e, words + [s[q..e]], skip, stop);
      n := n + 1;
      assert (words + [s[q..e]]) + Tokens(s, e, skip, stop) == words + ([s[q..e]] + Tokens(s, e, skip, stop));
    }
  }

  /** The loop never gets past a stop character that is not skipped. */
  lemma {:induction false} StuckForGood(s: string, st: Cursor, i: nat, skip: set<char>, stop: set<char>, n: nat)
    requires st.Going? && st.at <= i < |s| && s[i] in stop && s[i] !in skip
    ensures var st' := Rounds(s, st, skip, stop, n); st'.Going? && st'.at <= i
    decreases n
  {
    if n > 0 {
      StuckForGood(s, Round(s, st, skip, stop), i, skip, stop, n - 1);
    }
  }

  lemma {:induction false} DoneStays(s: string, st: Cursor, skip: set<char>, stop: set<char>, k: nat, n: nat)
    requires Rounds(s, st, skip, stop, k).Done? && Rounds(s, st, skip, stop, n).Done?
    ensures Rounds(s, st, skip, stop, k) == Rounds(s, st, skip, stop, n)
    decreases k + n
  {
    var next := Round(s, st, skip, stop);
    if k > 0 && n > 0 {
      DoneStays(s, next, skip, stop, k - 1, n - 1);
    } else if k > 0 {
      DoneStays(s, next, skip, stop, k - 1, n);
    } else if n > 0 {
      DoneStays(s, next, skip, stop, k, n - 1);
    }
  }

  /** The loop returns if and only if every stop character of the text is also skipped, and
      then it has put the text's words. */
  lemma ReturnsIffPassable(s: string, skip: set<char>, stop: set<char>)
    ensures (exists n :: Run(s, skip, stop, n).Done?) <==> Passable(s, 0, skip, stop)
    ensures forall n :: Run(s, skip, stop, n).Done? ==> Run(s, skip, stop, n).words == Tokens(s, 0, skip, stop)
  {
    var st := Going(0, []);
    if Passable(s, 0, skip, stop) {
      var n := FinishesWithTokens(s, 0, [], skip, stop);
      assert [] + Tokens(s, 0, skip, stop) == Tokens(s, 0, skip, stop);
      assert Run(s, skip, stop, n).Done?;
      forall k | Run(s, skip, stop, k).Done? ensures Run(s, skip, stop, k).words == Tokens(s, 0, skip, stop) {
        DoneStays(s, st, skip, stop, k, n);
      }
    } else {
      var i :| 0 <= i < |s| && s[i] in stop && s[i] !in skip;
      forall n ensures !Run(s, skip, stop, n).Done? {
        StuckForGood(s, st, i, skip, stop, n);
      }
    }
  }

  // ---- printing words with separators ---------------------------------------------------

  /** seps[0] words[0] seps[1] words[1] ... */
  function Print(seps: seq<string>, words: seq<string>): string
    requires |seps| == |words| + 1
  {
    if words == [] then seps[0] else seps[0] + (words[0] + Print(seps[1..], words[1..]))
  }

  predicate AllIn(s: string, chars: set<char>) {
    forall i :: 0 <= i < |s| ==> s[i] in chars
  }

  predicate NoneIn(s: string, chars: set<char>) {
    forall i :: 0 <= i < |s| ==> s[i] !in chars
  }

  predicate Word(w: string, skip: set<char>, stop: set<char>) {
    w != "" && w[0] !in skip && NoneIn(w, stop)
  }

  /** What may stand around n words: skipped characters, beginning with a stop after a
      word; only before the first word and after the last there may be none. */
  predicate Separated(seps: seq<string>, n: nat, skip: set<char>, stop: set<char>) {
    && |seps| == n + 1
    && (forall i :: 0 <= i <= n ==> AllIn(seps[i], skip))
    && (forall i :: 0 < i <= n ==> if seps[i] == "" then i == n else seps[i][0] in stop)
  }

  predicate Layout(seps: seq<string>, words: seq<string>, skip: set<char>, stop: set<char>) {
    && (forall i :: 0 <= i < |words| ==> Word(words[i], skip, stop))
    && Separated(seps, |words|, skip, stop)
  }

  lemma Pieces(s: string, p: nat, q: nat, e: nat, a: string, b: string, c: string)
    requires p <= |s| && s[p..] == a + (b + c) && q == p + |a| && e == q + |b|
    ensures e <= |s| && s[p..q] == a && s[q..e] == b && s[e..] == c
  {
    var rest := a + (b + c);
    assert rest[..|a|] == a && rest[|a|..] == b + c && (b + c)[..|b|] == b && (b + c)[|b|..] == c;
    assert s[q..] == rest[|a|..];
    assert s[q..e] == s[q..][..|b|] && s[e..] == s[q..][|b|..];
    assert s[p..q] == rest[..|a|];
  }

  /** Words printed with any separators are taken back apart. */
  lemma {:induction false} TokensInvertPrint(s: string, p: nat, seps: seq<string>, words: seq<string>,
                                             skip: set<char>, stop: set<char>)
    requires p <= |s| && |seps| == |words| + 1 && s[p..] == Print(seps, words)
    requires Layout(seps, words, skip, stop)
    ensures Tokens(s, p, skip, stop) == words
    decreases |words|
  {
    if words == [] {
      SpanRun(s, p, |s|, seps[0], skip);
      SpanEndsAt(s, p, |s|, skip);
    } else {
      var rest := Print(seps[1..], words[1..]);
      var q := p + |seps[0]|;
      var e := q + |words[0]|;
      Pieces(s, p, q, e, seps[0], words[0], rest);
      LayoutRest(seps, words, skip, stop);
      SpanRun(s, p, q, seps[0], skip);
      CSpanRun(s, q, e, words[0], stop);
      assert s[q] == words[0][0];
      assert e < |s| ==> s[e] == rest[0];
      SpanEndsAt(s, p, q, skip);
      CSpanEndsAt(s, q, e, stop);
      TokensInvertPrint(s, e, seps[1..], words[1..], skip, stop);
    }
  }

  lemma SpanRun(s: string, p: nat, q: nat, a: string, accept: set<char>)
    requires p <= q <= |s| && s[p..q] == a && AllIn(a, accept)
    ensures forall k :: p <= k < q ==> s[k] in accept
  {
    forall k | p <= k < q ensures s[k] in accept {
      assert s[k] == a[k - p];
    }
  }

  lemma CSpanRun(s: string, p: nat, q: nat, a: string, reject: set<char>)
    requires p <= q <= |s| && s[p..q] == a && NoneIn(a, reject)
    ensures forall k :: p <= k < q ==> s[k] !in reject
  {
    forall k | p <= k < q ensures s[k] !in reject {
      assert s[k] == a[k - p];
    }
  }

  lemma LayoutRest(seps: seq<string>, words: seq<string>, skip: set<char>, stop: set<char>)
    requires words != [] && Layout(seps, words, skip, stop)
    ensures Layout(seps[1..], words[1..], skip, stop)
    ensures var rest := Print(seps[1..], words[1..]); rest == "" || rest[0] in stop
  {
    assert seps[1..][0] == seps[1];
  }

  /** The separators a text has around its words. */
  function Separators(s: string, p: nat, skip: set<char>, stop: set<char>): seq<string>
    requires p <= |s|
    decreases |s| - p
  {
    var q := SpanEnd(s, p, skip);
    var e := CSpanEnd(s, q, stop);
    if q < e then [s[p..q]] + Separators(s, e, skip, stop) else [s[p..q]]
  }

  lemma {:induction false} PrintInvertsTokens(s: string, p: nat, skip: set<char>, stop: set<char>)
    requires p <= |s| && Passable(s, p, skip, stop)
    ensures Layout(Separators(s, p, skip, stop), Tokens(s, p, skip, stop), skip, stop)
    ensures Print(Separators(s, p, skip, stop), Tokens(s, p, skip, stop)) == s[p..]
    ensures p < |s| && s[p] in skip ==>
              Separators(s, p, skip, stop)[0] != "" && Separators(s, p, skip, stop)[0][0] == s[p]
    decreases |s| - p
  {
    var q := SpanEnd(s, p, skip);
    var e := CSpanEnd(s, q, stop);
    if q < e {
      PrintInvertsTokens(s, e, skip, stop);
      LayoutGrows(s[p..q], s[q..e], Separators(s, e, skip, stop), Tokens(s, e, skip, stop), skip, stop);
      Reassembled(s, p, q, e);
    } else {
      assert s[p..q] == s[p..];
    }
  }

  lemma Reassembled(s: string, p: nat, q: nat, e: nat)
    requires p <= q <= e <= |s|
    ensures s[p..] == s[p..q] + (s[q..e] + s[e..])
  {
  }

  lemma LayoutGrows(sep: string, word: string, seps: seq<string>, words: seq<string>, skip: set<char>, stop: set<char>)
    requires AllIn(sep, skip) && Word(word, skip, stop) && Layout(seps, words, skip, stop)
    requires if seps[0] == "" then words == [] else seps[0][0] in stop
    ensures Layout([sep] + seps, [word] + words, skip, stop)
    ensures Print([sep] + seps, [word] + words) == sep + (word + Print(seps, words))
  {
    var seps', words' := [sep] + seps, [word] + words;
    assert seps'[1..] == seps && words'[1..] == words;
    forall i | 0 <= i <= |words'|
      ensures AllIn(seps'[i], skip) && (i > 0 ==> if seps'[i] == "" then i == |words'| else seps'[i][0] in stop)
    {
      if i > 0 {
        assert seps'[i] == seps[i - 1];
      }
    }
    forall i | 0 <= i < |words'| ensures Word(words'[i], skip, stop) {
      if i > 0 {
        assert words'[i] == words[i - 1];
      }
    }
  }

  /** The words of a text are THE words it is made of with separators around them. */
  lemma TokensAreTheWords(s: string, words: seq<string>, skip: set<char>, stop: set<char>)
    requires Passable(s, 0, skip, stop)
    ensures Tokens(s, 0, skip, stop) == words <==>
              exists seps :: Layout(seps, words, skip, stop) && Print(seps, words) == s
  {
    PrintInvertsTokens(s, 0, skip, stop);
    assert s[0..] == s;
    assert Layout(Separators(s, 0, skip, stop), Tokens(s, 0, skip, stop), skip, stop);
    forall seps | Layout(seps, words, skip, stop) && Print(seps, words) == s ensures Tokens(s, 0, skip, stop) == words {
      TokensInvertPrint(s, 0, seps, words, skip, stop);
    }
  }

  // ---- parse_fields into a list of words ---------------------------------------------------

  const WORD_SKIP: set<char> := {' ', '\t', ';'}
  const WORD_STOP: set<char> := {' ', '\t', ';', '\r', '\n'}

  /** The flat parse_fields takes words apart at space, tab, semicolon, CR and LF, and goes on
      behind the first three only. */
  lemma WordsEndAt(ch: char)
    ensures ch in WORD_STOP <==> ch as int == 32 || ch as int == 9 || ch == ';' || ch as int == 13 || ch as int == 10
    ensures ch in WORD_SKIP <==> ch as int == 32 || ch as int == 9 || ch == ';'
  {
  }

  predicate EolFree(s: string) {
    forall i :: 0 <= i < |s| ==> s[i] != '\r' && s[i] != '\n'
  }

  /** The flat parse_fields loops for ever if and only if its text holds a CR or LF. */
  lemma FlatReturnsIffEolFree(source: string)
    ensures (exists n :: Run(source, WORD_SKIP, WORD_STOP, n).Done?) <==> EolFree(source)
  {
    ReturnsIffPassable(source, WORD_SKIP, WORD_STOP);
    EolFreeIsPassable(source);
  }

  lemma EolFreeIsPassable(source: string)
    ensures EolFree(source) <==> Passable(source, 0, WORD_SKIP, WORD_STOP)
  {
    assert forall ch :: ch in WORD_STOP <==> ch in WORD_SKIP || ch == '\r' || ch == '\n';
  }

  method ParseFields(source: string) returns (container: seq<string>)
    requires NulFree(source) && EolFree(source)
    ensures container == Tokens(source, 0, WORD_SKIP, WORD_STOP)
  {
    EolFreeIsPassable(source);
    container := [];
    assert container + Tokens(source, 0, WORD_SKIP, WORD_STOP) == Tokens(source, 0, WORD_SKIP, WORD_STOP);
    var p := 0;
    while true
      invariant 0 <= p <= |source|
      invariant container + Tokens(source, p, WORD_SKIP, WORD_STOP) == Tokens(source, 0, WORD_SKIP, WORD_STOP)
      decreases |source| - p
    {
      var q := SpanEnd(source, p, WORD_SKIP);
      var end := CSpanEnd(source, q, WORD_STOP);
      TakesWord(container, source, p, q, end, WORD_SKIP, WORD_STOP);
      if q == |source| {
        return;
      }
      var word := source[q..end];
      if word != "" {
        container := container + [word];
      }
      p := end;
    }
  }

  // ---- parse_tomap -----------------------------------------------------------------------------

  const PAIR_SKIP: set<char> := {' ', ',', '\t', '\r', '\n'}
  const PAIR_STOP: set<char> := {' ', '\t', ',', '\r', '\n'}

  /** Items are taken apart at space, tab, comma, CR and LF, and all of these are skipped. */
  lemma ItemsEndAt(ch: char)
    ensures ch in PAIR_STOP <==> ch as int == 32 || ch as int == 9 || ch == ',' || ch as int == 13 || ch as int == 10
    ensures ch in PAIR_SKIP <==> ch in PAIR_STOP
  {
  }

  /** What a std::map ordered by s_caseless holds at a key: the key's text and the value. */
  datatype Held = Held(text: string, value: string)

  /** Keys equivalent under s_caseless are those with one folded C string. */
  type KeyMap = map<string, Held>

  /** Two keys are one key to the map: neither is less than the other. */
  lemma FoldIsSameKey(a: string, b: string)
    ensures Fold(a) == Fold(b) <==> !Caseless(a, b) && !Caseless(b, a)
    ensures Fold(a) == Fold(b) <==> SameKey(a, b)
  {
    OneIsLess(Fold(a), Fold(b));
  }

  /** map[key], which makes an entry with an empty value if there is none. */
  function Touch(m: KeyMap, key: string): KeyMap {
    if Fold(key) in m then m else m[Fold(key) := Held(key, "")]
  }

  /** map[key] = value; the text of a key that is there stays. */
  function Store(m: KeyMap, key: string, value: string): KeyMap {
    var m := Touch(m, key);
    m[Fold(key) := m[Fold(key)].(value := value)]
  }

  /** One segment.  The NUL put over the '=' does not shorten the std::string that becomes
      the key. */
  function Assign(m: KeyMap, segment: string): KeyMap {
    var v := CSpanEnd(segment, 0, {'='});
    if v < |segment| then Store(m, segment[v := '\0'], segment[v + 1..]) else Touch(m, segment)
  }

  function AssignAll(m: KeyMap, segments: seq<string>): KeyMap
    decreases |segments|
  {
    if segments == [] then m else AssignAll(Assign(m, segments[0]), segments[1..])
  }

  lemma PairsPass(s: string)
    ensures Passable(s, 0, PAIR_SKIP, PAIR_STOP)
  {
    assert forall ch :: ch in PAIR_STOP ==> ch in PAIR_SKIP;
  }

  function ToMap(m: KeyMap, source: string): KeyMap {
    AssignAll(m, Tokens(source, 0, PAIR_SKIP, PAIR_STOP))
  }

  lemma TakesPair(m: KeyMap, s: string, p: nat, q: nat, e: nat)
    requires p <= |s| && q == SpanEnd(s, p, PAIR_SKIP) && e == CSpanEnd(s, q, PAIR_STOP)
    ensures if q == |s| then AssignAll(m, Tokens(s, p, PAIR_SKIP, PAIR_STOP)) == m
            else q < e <= |s| && AssignAll(m, Tokens(s, p, PAIR_SKIP, PAIR_STOP)) ==
                                 AssignAll(Assign(m, s[q..e]), Tokens(s, e, PAIR_SKIP, PAIR_STOP))
  {
    PairsPass(s);
    TakesWord([], s, p, q, e, PAIR_SKIP, PAIR_STOP);
    if q < |s| {
      var words := Tokens(s, p, PAIR_SKIP, PAIR_STOP);
      assert words == [s[q..e]] + Tokens(s, e, PAIR_SKIP, PAIR_STOP);
      assert words[1..] == Tokens(s, e, PAIR_SKIP, PAIR_STOP);
    }
  }

  method ParseToMap(m: KeyMap, source: string) returns (m': KeyMap)
    requires NulFree(source)
    ensures m' == ToMap(m, source)
  {
    m' := m;
    var p := 0;
    while true
      invariant 0 <= p <= |source|
      invariant AssignAll(m', Tokens(source, p, PAIR_SKIP, PAIR_STOP)) == ToMap(m, source)
      decreases |source| - p
    {
      var q := SpanEnd(source, p, PAIR_SKIP);
      var end := CSpanEnd(source, q, PAIR_STOP);
      TakesPair(m', source, p, q, end);
      if q == |source| {
        return;
      }
      if end <= q {
        assert false;  // the "empty value" case: every stop has just been skipped
      }
      m' := ParsePair(m', source[q..end]);
      p := end;
    }
  }

  /** What parse_tomap does with one segment. */
  method ParsePair(m: KeyMap, text: string) returns (m': KeyMap)
    ensures m' == Assign(m, text)
  {
    var segment := text;
    var v := CSpanEnd(segment, 0, {'='});
    if v < |segment| {
      var value := segment[v + 1..];
      segment := segment[v := '\0'];
      m' := Store(m, segment, value);
    } else {
      m' := Touch(m, segment);
    }
  }

  // ---- parse_fields into a vector of maps ----------------------------------------------------------

  const LIST_SKIP: set<char> := {' ', '\t', ';', '\r', '\n'}
  const LIST_STOP: set<char> := {';', '\r', '\n'}

  /** Maps are taken apart at semicolon, CR and LF; spaces and tabs in front are skipped too. */
  lemma MapsEndAt(ch: char)
    ensures ch in LIST_STOP <==> ch == ';' || ch as int == 13 || ch as int == 10
    ensures ch in LIST_SKIP <==> ch in LIST_STOP || ch as int == 32 || ch as int == 9
  {
  }

  lemma ListsPass(s: string)
    ensures Passable(s, 0, LIST_SKIP, LIST_STOP)
  {
    assert forall ch :: ch in LIST_STOP ==> ch in LIST_SKIP;
  }

  /** The maps of the segments, but for the empty ones. */
  function MapAll(segments: seq<string>): seq<KeyMap> {
    if segments == [] then []
    else
      var m := ToMap(map[], segments[0]);
      Kept([], m) + MapAll(segments[1..])
  }

  /** A map is kept unless it is empty. */
  function Kept(vector: seq<KeyMap>, m: KeyMap): seq<KeyMap> {
    if m == map[] then vector else vector + [m]
  }

  lemma {:induction false} MapAllAppend(a: seq<string>, b: seq<string>)
    ensures MapAll(a + b) == MapAll(a) + MapAll(b)
  {
    if a == [] {
      assert a + b == b;
    } else {
      assert (a + b)[0] == a[0] && (a + b)[1..] == a[1..] + b;
      MapAllAppend(a[1..], b);
      var first := Kept([], ToMap(map[], a[0]));
      assert first + (MapAll(a[1..]) + MapAll(b)) == (first + MapAll(a[1..])) + MapAll(b);
    }
  }

  lemma {:induction false} AssignAllGrows(m: KeyMap, segments: seq<string>)
    ensures segments != [] ==> AssignAll(m, segments) != map[]
    decreases |segments|
  {
    if segments != [] {
      var m1, v := Assign(m, segments[0]), CSpanEnd(segments[0], 0, {'='});
      assert Fold(if v < |segments[0]| then segments[0][v := '\0'] else segments[0]) in m1;
      if |segments| > 1 {
        AssignAllGrows(m1, segments[1..]);
      }
    }
  }

  /** A segment gives a map exactly when it holds an item: one of blanks and commas alone is
      dropped, and any other adds its map in its place. */
  lemma SegmentsGiveMaps(before: seq<string>, segment: string, behind: seq<string>)
    ensures MapAll(before + [segment] + behind)
            == MapAll(before)
               + (if AllIn(segment, PAIR_SKIP) then [] else [ToMap(map[], segment)])
               + MapAll(behind)
  {
    hide MapAll, ToMap, AllIn;
    MapAllAppend(before + [segment], behind);
    MapAllAppend(before, [segment]);
    MapAllOne(segment);
    EmptyWithoutItems(segment);
  }

  lemma MapAllOne(segment: string)
    ensures MapAll([segment]) == Kept([], ToMap(map[], segment))
  {
    hide ToMap;
    assert [segment][1..] == [];
  }

  lemma EmptyWithoutItems(segment: string)
    ensures ToMap(map[], segment) == map[] <==> AllIn(segment, PAIR_SKIP)
  {
    var q := SpanEnd(segment, 0, PAIR_SKIP);
    var e := CSpanEnd(segment, q, PAIR_STOP);
    PairsPass(segment);
    TakesWord([], segment, 0, q, e, PAIR_SKIP, PAIR_STOP);
    AssignAllGrows(map[], Tokens(segment, 0, PAIR_SKIP, PAIR_STOP));
  }

  function ToMaps(source: string): seq<KeyMap> {
    MapAll(Tokens(source, 0, LIST_SKIP, LIST_STOP))
  }

  lemma TakesMap(vector: seq<KeyMap>, s: string, p: nat, q: nat, e: nat)
    requires p <= |s| && q == SpanEnd(s, p, LIST_SKIP) && e == CSpanEnd(s, q, LIST_STOP)
    ensures if q == |s| then vector + MapAll(Tokens(s, p, LIST_SKIP, LIST_STOP)) == vector
            else q < e <= |s| && vector + MapAll(Tokens(s, p, LIST_SKIP, LIST_STOP)) ==
                                 Kept(vector, ToMap(map[], s[q..e])) + MapAll(Tokens(s, e, LIST_SKIP, LIST_STOP))
  {
    ListsPass(s);
    TakesWord([], s, p, q, e, LIST_SKIP, LIST_STOP);
    if q < |s| {
      var words, rest := Tokens(s, p, LIST_SKIP, LIST_STOP), Tokens(s, e, LIST_SKIP, LIST_STOP);
      assert words == [s[q..e]] + rest;
      MapAllStep(vector, s[q..e], rest);
    }
  }

  lemma MapAllStep(vector: seq<KeyMap>, segment: string, rest: seq<string>)
    ensures vector + MapAll([segment] + rest) == Kept(vector, ToMap(map[], segment)) + MapAll(rest)
  {
    assert ([segment] + rest)[1..] == rest;
    KeptFirst(vector, ToMap(map[], segment), MapAll(rest));
  }

  lemma KeptFirst(vector: seq<KeyMap>, m: KeyMap, rest: seq<KeyMap>)
    ensures vector + (Kept([], m) + rest) == Kept(vector, m) + rest
  {
    assert vector + ([] + rest) == vector + rest;
    assert vector + ([m] + rest) == (vector + [m]) + rest;
  }

  method ParseFieldMaps(source: string) returns (vector: seq<KeyMap>)
    requires NulFree(source)
    ensures vector == ToMaps(source)
  {
    vector := [];
    var p := 0;
    assert vector + ToMaps(source) == ToMaps(source);
    while true
      invariant 0 <= p <= |source|
      invariant vector + MapAll(Tokens(source, p, LIST_SKIP, LIST_STOP)) == ToMaps(source)
      decreases |source| - p
    {
      var q := SpanEnd(source, p, LIST_SKIP);
      var end := CSpanEnd(source, q, LIST_STOP);
      TakesMap(vector, source, p, q, end);
      if q == |source| {
        return;
      }
      // Never empty, so the source's branch for n <= 0 is not taken.
      vector := PutMap(vector, source[q..end]);
      p := end;
    }
  }

  /** A new map at the end, erased again if the segment leaves it empty. */
  method PutMap(vector: seq<KeyMap>, segment: string) returns (vector': seq<KeyMap>)
    requires NulFree(segment)
    ensures vector' == Kept(vector, ToMap(map[], segment))
  {
    vector' := vector + [map[]];
    var last := |vector'| - 1;
    var m := ParseToMap(map[], segment);
    vector' := vector'[last := m];
    if m == map[] {
      vector' := vector'[..last];
    }
  }

  // ---- the printer -------------------------------------------------------------------------------------

  datatype Item = Bare(key: string) | Pair(key: string, value: string)

  function Text(item: Item): string {
    match item
    case Bare(key) => key
    case Pair(key, value) => key + "=" + value
  }

  /** The value an item gives its key. */
  function Given(item: Item): string {
    if item.Bare? then "" else item.value
  }

  const SEPARATORS: set<char> := PAIR_STOP + LIST_STOP + {'\0'}

  /** Keys without separators or '=', values without separators; a key may be empty only
      in front of '='. */
  predicate GoodItem(item: Item) {
    && NoneIn(item.key, SEPARATORS + {'='})
    && (item.Pair? ==> NoneIn(item.value, SEPARATORS))
    && (item.Bare? ==> item.key != "")
  }

  predicate GoodItems(items: seq<Item>) {
    forall i :: 0 <= i < |items| ==> GoodItem(items[i])
  }

  function Texts(items: seq<Item>): (r: seq<string>)
    ensures |r| == |items|
  {
    seq(|items|, i requires 0 <= i < |items| => Text(items[i]))
  }

  /** Some item has this key, in any case. */
  predicate Named(items: seq<Item>, k: string) {
    exists i :: 0 <= i < |items| && Fold(items[i].key) == k
  }

  /** The key as the first of the items that have it writes it. */
  function First(items: seq<Item>, k: string): string {
    if items == [] then "" else if Fold(items[0].key) == k then items[0].key else First(items[1..], k)
  }

  /** The last value given for a key. */
  function Latest(items: seq<Item>, k: string): string {
    if items == [] then ""
    else
      var last := items[|items| - 1];
      if last.Pair? && Fold(last.key) == k then last.value else Latest(items[..|items| - 1], k)
  }

  /** m holds the items and nothing else: one entry for each key, in whatever case, with
      the key's C string as first written and the last value given. */
  ghost predicate Holds(m: KeyMap, items: seq<Item>) {
    && (forall k :: k in m <==> Named(items, k))
    && (forall k :: k in m ==> CStr(m[k].text) == First(items, k) && m[k].value == Latest(items, k))
  }

  lemma {:induction false} OneMoreItem(items: seq<Item>, item: Item, k: string)
    ensures Named(items + [item], k) <==> Named(items, k) || Fold(item.key) == k
    ensures First(items + [item], k) == if Named(items, k) then First(items, k)
                                        else if Fold(item.key) == k then item.key else ""
    ensures Latest(items + [item], k) == if item.Pair? && Fold(item.key) == k then item.value else Latest(items, k)
  {
    var all := items + [item];
    assert all[..|items|] == items && all[|items|] == item;
    NamedOneMore(items, item, k);
    FirstOneMore(items, item, k);
  }

  lemma NamedOneMore(items: seq<Item>, item: Item, k: string)
    ensures Named(items + [item], k) <==> Named(items, k) || Fold(item.key) == k
  {
    var all := items + [item];
    assert forall i :: 0 <= i < |items| ==> all[i] == items[i];
    assert all[|items|] == item;
  }

  lemma {:induction false} FirstOneMore(items: seq<Item>, item: Item, k: string)
    ensures First(items + [item], k) == if Named(items, k) then First(items, k)
                                        else if Fold(item.key) == k then item.key else ""
  {
    if items == [] {
      assert [item][0] == item && First([item][1..], k) == "";
      assert items + [item] == [item];
    } else {
      assert (items + [item])[1..] == items[1..] + [item];
      FirstOneMore(items[1..], item, k);
      NamedFirst(items, k);
    }
  }

  lemma NamedFirst(items: seq<Item>, k: string)
    requires items != []
    ensures Named(items, k) <==> Fold(items[0].key) == k || Named(items[1..], k)
  {
    assert forall i :: 0 < i < |items| ==> items[i] == items[1..][i - 1];
  }

  /** Of keys that are distinct ignoring case, each keeps its own text and value. */
  lemma DistinctItemsAreHeld(m: KeyMap, items: seq<Item>, i: nat)
    requires Holds(m, items) && i < |items|
    requires forall j :: 0 <= j < |items| && j != i ==> !SameKey(items[i].key, items[j].key)
    ensures Fold(items[i].key) in m
    ensures CStr(m[Fold(items[i].key)].text) == items[i].key && m[Fold(items[i].key)].value == Given(items[i])
  {
    var k := Fold(items[i].key);
    assert Named(items, k);
    forall j | 0 <= j < |items| && j != i ensures Fold(items[j].key) != k {
      FoldIsSameKey(items[i].key, items[j].key);
    }
    OnlyOne(items, i, k);
  }

  lemma {:induction false} OnlyOne(items: seq<Item>, i: nat, k: string)
    requires i < |items| && Fold(items[i].key) == k
    requires forall j :: 0 <= j < |items| && j != i ==> Fold(items[j].key) != k
    ensures First(items, k) == items[i].key && Latest(items, k) == Given(items[i])
    decreases |items|
  {
    var n := |items| - 1;
    var before, last := items[..n], items[n];
    assert items == before + [last];
    OneMoreItem(before, last, k);
    if i < n {
      assert before[i] == items[i];
      OnlyOne(before, i, k);
    } else {
      assert !Named(before, k);
      NoneLatest(before, k);
    }
  }

  lemma {:induction false} NoneLatest(items: seq<Item>, k: string)
    requires !Named(items, k)
    ensures Latest(items, k) == ""
  {
    if items != [] {
      var n := |items| - 1;
      assert items == items[..n] + [items[n]];
      NamedOneMore(items[..n], items[n], k);
      NoneLatest(items[..n], k);
    }
  }

  /** The std::string that becomes the key. */
  function KeyText(item: Item): string {
    if item.Bare? then item.key else item.key + ("\0" + item.value)
  }

  lemma TextIsAssigned(m: KeyMap, item: Item)
    requires GoodItem(item)
    ensures Assign(m, Text(item)) == if item.Bare? then Touch(m, KeyText(item)) else Store(m, KeyText(item), item.value)
  {
    CutsAtEquals(item);
    if item.Pair? {
      EqualsOverwritten(item.key, item.value);
    }
  }

  lemma CutsAtEquals(item: Item)
    requires GoodItem(item)
    ensures CSpanEnd(Text(item), 0, {'='}) == |item.key|
  {
    var s, v := Text(item), |item.key|;
    assert forall k :: 0 <= k < v ==> s[k] == item.key[k];
    CSpanEndsAt(s, 0, v, {'='});
  }

  lemma EqualsOverwritten(key: string, value: string)
    ensures (key + "=" + value)[|key| := '\0'] == key + ("\0" + value)
    ensures (key + "=" + value)[|key| + 1..] == value
  {
  }

  lemma TextIsWord(item: Item)
    requires GoodItem(item)
    ensures Word(Text(item), PAIR_SKIP, PAIR_STOP) && NoneIn(Text(item), LIST_STOP)
  {
    var s, v := Text(item), |item.key|;
    forall k | 0 <= k < |s| ensures s[k] !in SEPARATORS {
      if k < v {
        assert s[k] == item.key[k];
      } else if k > v {
        assert s[k] == item.value[k - v - 1];
      }
    }
  }

  lemma {:induction false} CStrStopsAtNul(key: string, rest: string)
    requires NoneIn(key, SEPARATORS) && (rest == "" || rest[0] == '\0')
    ensures CStr(key + rest) == key
  {
    if key == "" {
      assert key + rest == rest;
    } else {
      assert key[0] != '\0';
      CStrStopsAtNul(key[1..], rest);
      assert (key + rest)[1..] == key[1..] + rest;
      assert [key[0]] + key[1..] == key;
    }
  }

  lemma KeyTextIsKey(item: Item)
    requires GoodItem(item)
    ensures CStr(KeyText(item)) == item.key && Fold(KeyText(item)) == Fold(item.key)
  {
    CStrStopsAtNul(item.key, "");
    assert item.key + "" == item.key;
    if item.Pair? {
      CStrStopsAtNul(item.key, "\0" + item.value);
    }
  }

  /** A key that is not there yet gets its entry; one that is there keeps its text, and
      gets a new value if there is one. */
  lemma AssignSets(m: KeyMap, item: Item)
    requires GoodItem(item)
    ensures var k := Fold(item.key);
            Assign(m, Text(item)) ==
            if k !in m then m[k := Held(KeyText(item), Given(item))]
            else if item.Bare? then m
            else m[k := Held(m[k].text, item.value)]
  {
    KeyTextIsKey(item);
    TextIsAssigned(m, item);
  }

  lemma AssignHolds(m: KeyMap, items: seq<Item>, item: Item)
    requires Holds(m, items) && GoodItem(item)
    ensures Holds(Assign(m, Text(item)), items + [item])
  {
    var m', key := Assign(m, Text(item)), Fold(item.key);
    AssignSets(m, item);
    KeyTextIsKey(item);
    forall k
      ensures k in m' <==> Named(items + [item], k)
      ensures k in m' ==> CStr(m'[k].text) == First(items + [item], k) && m'[k].value == Latest(items + [item], k)
    {
      OneMoreItem(items, item, k);
      if !Named(items, k) {
        NoneLatest(items, k);
      }
    }
  }

  lemma {:induction false} AssignAllHolds(m: KeyMap, before: seq<Item>, items: seq<Item>)
    requires Holds(m, before) && GoodItems(items)
    ensures Holds(AssignAll(m, Texts(items)), before + items)
    decreases |items|
  {
    if items == [] {
      assert before + items == before;
    } else {
      var next := before + [items[0]];
      assert next + items[1..] == before + items;
      AssignHolds(m, before, items[0]);
      assert Texts(items)[0] == Text(items[0]) && Texts(items)[1..] == Texts(items[1..]);
      AssignAllHolds(Assign(m, Text(items[0])), next, items[1..]);
    }
  }

  /** A printed list of items, with keys repeated or not, parses back to the map that holds
      them, whatever blanks and commas stand around them. */
  lemma ToMapInvertsPrint(items: seq<Item>, seps: seq<string>)
    requires GoodItems(items) && Separated(seps, |items|, PAIR_SKIP, PAIR_STOP)
    ensures Holds(ToMap(map[], Print(seps, Texts(items))), items)
  {
    forall i | 0 <= i < |items| ensures Word(Texts(items)[i], PAIR_SKIP, PAIR_STOP) {
      TextIsWord(items[i]);
    }
    var s := Print(seps, Texts(items));
    assert s[0..] == s;
    TokensInvertPrint(s, 0, seps, Texts(items), PAIR_SKIP, PAIR_STOP);
    assert [] + items == items;
    AssignAllHolds(map[], [], items);
  }

  /** The separators inside one map: blanks and commas, in front of the first item none, or
      a comma first. */
  predicate Inside(seps: seq<string>, n: nat) {
    && Separated(seps, n, PAIR_SKIP, PAIR_STOP)
    && (forall i :: 0 <= i <= n ==> NoneIn(seps[i], LIST_STOP))
    && (seps[0] == "" || seps[0][0] == ',')
  }

  function PrintMaps(lists: seq<seq<Item>>, inner: seq<seq<string>>): (r: seq<string>)
    requires |inner| == |lists| && forall i :: 0 <= i < |lists| ==> |inner[i]| == |lists[i]| + 1
    ensures |r| == |lists|
  {
    seq(|lists|, i requires 0 <= i < |lists| => Print(inner[i], Texts(lists[i])))
  }

  lemma {:induction false} PrintHasNone(seps: seq<string>, words: seq<string>, chars: set<char>)
    requires |seps| == |words| + 1
    requires forall i :: 0 <= i < |seps| ==> NoneIn(seps[i], chars)
    requires forall i :: 0 <= i < |words| ==> NoneIn(words[i], chars)
    ensures NoneIn(Print(seps, words), chars)
    decreases |words|
  {
    if words != [] {
      PrintHasNone(seps[1..], words[1..], chars);
      assert NoneIn(seps[0], chars) && NoneIn(words[0], chars);
    }
  }

  /** A printed map with at least one item is one segment of the list. */
  lemma PrintedMapIsWord(items: seq<Item>, seps: seq<string>)
    requires items != [] && GoodItems(items) && Inside(seps, |items|)
    ensures Word(Print(seps, Texts(items)), LIST_SKIP, LIST_STOP)
  {
    forall i | 0 <= i < |items| ensures NoneIn(Texts(items)[i], LIST_STOP) {
      TextIsWord(items[i]);
    }
    PrintHasNone(seps, Texts(items), LIST_STOP);
    TextIsWord(items[0]);
    var first := Text(items[0]);
    assert Texts(items)[0] == first && first[0] !in PAIR_SKIP && first[0] !in LIST_STOP;
    assert forall ch :: ch in LIST_SKIP ==> ch in PAIR_SKIP || ch in LIST_STOP;
    assert Print(seps, Texts(items))[0] == if seps[0] == "" then first[0] else ',';
  }

  lemma {:induction false} MapAllHolds(segments: seq<string>, lists: seq<seq<Item>>)
    requires |segments| == |lists|
    requires forall i :: 0 <= i < |lists| ==> lists[i] != [] && Holds(ToMap(map[], segments[i]), lists[i])
    ensures |MapAll(segments)| == |lists|
    ensures forall i :: 0 <= i < |lists| ==> Holds(MapAll(segments)[i], lists[i])
  {
    if segments != [] {
      var m := ToMap(map[], segments[0]);
      assert Named(lists[0], Fold(lists[0][0].key));
      MapAllHolds(segments[1..], lists[1..]);
      forall i | 0 <= i < |lists| ensures Holds(MapAll(segments)[i], lists[i]) {
        if i > 0 {
          assert lists[1..][i - 1] == lists[i];
        }
      }
    }
  }

  /** A printed list of non-empty maps parses back to that list, whatever separators stand
      around the maps and around their items. */
  lemma ToMapsInvertsPrint(lists: seq<seq<Item>>, inner: seq<seq<string>>, outer: seq<string>)
    requires |inner| == |lists| && forall i :: 0 <= i < |lists| ==> |inner[i]| == |lists[i]| + 1
    requires forall i :: 0 <= i < |lists| ==> lists[i] != [] && GoodItems(lists[i]) && Inside(inner[i], |lists[i]|)
    requires Separated(outer, |lists|, LIST_SKIP, LIST_STOP)
    ensures var maps := ToMaps(Print(outer, PrintMaps(lists, inner)));
            |maps| == |lists| && forall i :: 0 <= i < |lists| ==> Holds(maps[i], lists[i])
  {
    var segments := PrintMaps(lists, inner);
    forall i | 0 <= i < |lists|
      ensures Word(segments[i], LIST_SKIP, LIST_STOP) && Holds(ToMap(map[], segments[i]), lists[i])
    {
      PrintedMapIsWord(lists[i], inner[i]);
      ToMapInvertsPrint(lists[i], inner[i]);
    }
    var s := Print(outer, segments);
    assert s[0..] == s;
    TokensInvertPrint(s, 0, outer, segments, LIST_SKIP, LIST_STOP);
    MapAllHolds(segments, lists);
  }
}
