/** The C library's spans, and the characters that end a line. */
module CStrings {

  predicate IsEol(ch: char) { ch == '\r' || ch == '\n' }

  /** How lines end in a printed text. */
  predicate LineEnd(eol: string) { eol == "\r\n" || eol == "\n" }

  /** Where strspn(s + i, accept) ends. */
  function SpanEnd(s: string, i: nat, accept: set<char>): (n: nat)
    ensures i == n || i < n <= |s|
    ensures forall k :: i <= k < n ==> s[k] in accept
    ensures n < |s| ==> s[n] !in accept
    decreases |s| - i
  {
    if i < |s| && s[i] in accept then SpanEnd(s, i + 1, accept) else i
  }

  /** Where strcspn(s + i, reject) ends. */
  function CSpanEnd(s: string, i: nat, reject: set<char>): (n: nat)
    ensures i == n || i < n <= |s|
    ensures forall k :: i <= k < n ==> s[k] !in reject
    ensures n < |s| ==> s[n] in reject
    decreases |s| - i
  {
    if i < |s| && s[i] !in reject then CSpanEnd(s, i + 1, reject) else i
  }

  lemma SpanEndsAt(s: string, i: nat, n: nat, accept: set<char>)
    requires i <= n <= |s| && (forall k :: i <= k < n ==> s[k] in accept)
    requires n < |s| ==> s[n] !in accept
    ensures SpanEnd(s, i, accept) == n
  {
  }

  lemma CSpanEndsAt(s: string, i: nat, n: nat, reject: set<char>)
    requires i <= n <= |s| && (forall k :: i <= k < n ==> s[k] !in reject)
    requires n < |s| ==> s[n] in reject
    ensures CSpanEnd(s, i, reject) == n
  {
  }
}
