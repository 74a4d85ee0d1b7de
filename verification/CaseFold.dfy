/** Case-insensitive keys (s_casehash, s_casecmp and s_caseless in utility.hpp). */
module CaseFold {

  const SIZE_T: int := 0x1_0000_0000_0000_0000

  /** The C string in a std::string's buffer: up to the first NUL. */
  function CStr(s: string): (c: string)
    ensures c <= s
  {
    if s == "" || s[0] == '\0' then "" else [s[0]] + CStr(s[1..])
  }

  predicate NulFree(s: string) {
    forall i :: 0 <= i < |s| ==> s[i] != '\0'
  }

  /** tolower() in the C locale, as strcasecmp compares. */
  function Lower(ch: char): char {
    if 'A' <= ch <= 'Z' then ch + ' ' else ch
  }

  function LowerAll(s: string): string {
    seq(|s|, i requires 0 <= i < |s| => Lower(s[i]))
  }

  /** A key's C string as strcasecmp sees it. */
  function Fold(key: string): string { LowerAll(CStr(key)) }

  /** s_casecmp: strcasecmp(left, right) == 0. */
  predicate SameKey(left: string, right: string) {
    Fold(left) == Fold(right)
  }

  /** Two characters are equal but for case: the letters A to Z have the codes 65 to 90, and
      each stands 32 below its small letter. */
  predicate SameLetter(a: char, b: char) {
    || a == b
    || (65 <= a as int <= 90 && b as int == a as int + 32)
    || (65 <= b as int <= 90 && a as int == b as int + 32)
  }

  predicate SameLetters(a: string, b: string) {
    |a| == |b| && forall i :: 0 <= i < |a| ==> SameLetter(a[i], b[i])
  }

  /** Folding leaves no capital and changes a character to its other case at most, so
      characters fold alike exactly when they are equal but for case. */
  lemma LowerFoldsCase(a: char, b: char)
    ensures SameLetter(a, Lower(a)) && !(65 <= Lower(a) as int <= 90)
    ensures Lower(a) == Lower(b) <==> SameLetter(a, b)
  {
  }

  lemma FoldsAlike(a: string, b: string)
    ensures LowerAll(a) == LowerAll(b) <==> SameLetters(a, b)
  {
    if LowerAll(a) == LowerAll(b) {
      assert |a| == |LowerAll(a)| == |b|;
      forall i | 0 <= i < |a| ensures SameLetter(a[i], b[i]) {
        assert LowerAll(a)[i] == Lower(a[i]) && LowerAll(b)[i] == Lower(b[i]);
        LowerFoldsCase(a[i], b[i]);
      }
    }
    if SameLetters(a, b) {
      forall i | 0 <= i < |a| ensures LowerAll(a)[i] == LowerAll(b)[i] {
        LowerFoldsCase(a[i], b[i]);
      }
    }
  }

  /** The C string of a key ends just before its first NUL, or with the key. */
  lemma {:induction false} CStrEndsAtNul(s: string)
    ensures NulFree(CStr(s)) && (|CStr(s)| < |s| ==> s[|CStr(s)|] == '\0')
  {
    if s != "" && s[0] != '\0' {
      CStrEndsAtNul(s[1..]);
    }
  }

  /** Keys are equal exactly when their C strings are, character by character and but for
      case. */
  lemma SameKeyIsCase(left: string, right: string)
    ensures SameKey(left, right) <==> SameLetters(CStr(left), CStr(right))
  {
    FoldsAlike(CStr(left), CStr(right));
  }

  /** strcmp(a, b) < 0 */
  predicate Less(a: string, b: string) {
    if b == "" then false
    else if a == "" then true
    else if a[0] != b[0] then a[0] < b[0]
    else Less(a[1..], b[1..])
  }

  /** s_caseless: strcasecmp(left, right) < 0. */
  predicate Caseless(left: string, right: string) {
    Less(Fold(left), Fold(right))
  }

  lemma {:induction false} OneIsLess(a: string, b: string)
    ensures !(Less(a, b) && Less(b, a))
    ensures a == b <==> !Less(a, b) && !Less(b, a)
  {
    if a != "" && b != "" && a[0] == b[0] {
      OneIsLess(a[1..], b[1..]);
      assert a == [a[0]] + a[1..] && b == [b[0]] + b[1..];
    }
  }

  lemma {:induction false} LessChains(a: string, b: string, c: string)
    requires Less(a, b) && Less(b, c)
    ensures Less(a, c)
  {
    if a != "" && a[0] == b[0] == c[0] {
      LessChains(a[1..], b[1..], c[1..]);
    }
  }

  /** a comes before b exactly when it is a proper prefix, or smaller where they first
      differ. */
  ghost predicate LessAt(a: string, b: string, k: nat) {
    k <= |a| && k < |b| && a[..k] == b[..k] && (k < |a| ==> a[k] < b[k])
  }

  lemma {:induction false} LessIsFirstDifference(a: string, b: string)
    ensures Less(a, b) <==> exists k: nat :: LessAt(a, b, k)
  {
    if a != "" && b != "" && a[0] == b[0] {
      LessIsFirstDifference(a[1..], b[1..]);
      if Less(a, b) {
        var k: nat :| LessAt(a[1..], b[1..], k);
        assert a[..k + 1] == [a[0]] + a[1..][..k] && b[..k + 1] == [b[0]] + b[1..][..k];
        assert LessAt(a, b, k + 1);
      }
      forall k: nat | LessAt(a, b, k) ensures Less(a, b) {
        assert k > 0;
        assert a[1..][..k - 1] == a[..k][1..] && b[1..][..k - 1] == b[..k][1..];
        assert LessAt(a[1..], b[1..], k - 1);
      }
    } else {
      if Less(a, b) {
        assert LessAt(a, b, 0);
      }
      forall k: nat | LessAt(a, b, k) ensures Less(a, b) {
        if k > 0 {
          assert a[..k][0] == b[..k][0];
        }
      }
    }
  }

  /** What std::map asks of s_caseless: it is a strict order on keys, total but for keys
      that are equal under s_casecmp. */
  lemma CaselessIsOrder(a: string, b: string, c: string)
    ensures !Caseless(a, a)
    ensures Caseless(a, b) && Caseless(b, c) ==> Caseless(a, c)
    ensures SameKey(a, b) <==> !Caseless(a, b) && !Caseless(b, a)
    ensures SameKey(a, b) ==> (Caseless(a, c) <==> Caseless(b, c)) && (Caseless(c, a) <==> Caseless(c, b))
  {
    OneIsLess(Fold(a), Fold(a));
    OneIsLess(Fold(a), Fold(b));
    if Caseless(a, b) && Caseless(b, c) {
      LessChains(Fold(a), Fold(b), Fold(c));
    }
  }

  /** What the hash adds for one character: `ch ^= 0x20` on a lower-case letter, and then
      the conversion of a SIGNED char to size_t. */
  function HashTerm(ch: char): int {
    var up := if 'a' <= ch <= 'z' then ch as int - 0x20 else ch as int;
    if up < 128 then up else up - 256
  }

  function TermSum(s: string): int {
    if s == "" then 0 else HashTerm(s[0]) + TermSum(s[1..])
  }

  /** s_casehash: all size() characters are summed, NULs included. */
  function Hash(s: string): int { TermSum(s) % SIZE_T }

  /** What one character adds: a small letter as much as its capital, any other its code as
      a signed char. */
  lemma HashOfOne(ch: char)
    requires ch as int < 256
    ensures TermSum([ch]) == if 97 <= ch as int <= 122 then ch as int - 32
                             else if ch as int < 128 then ch as int else ch as int - 256
  {
    assert TermSum([ch]) == HashTerm(ch) + TermSum([ch][1..]);
  }

  /** The hash is that of the parts, added. */
  lemma {:induction false} HashAdds(a: string, b: string)
    ensures TermSum(a + b) == TermSum(a) + TermSum(b)
    ensures Hash(a + b) == (Hash(a) + Hash(b)) % SIZE_T
  {
    if a == "" {
      assert a + b == b;
    } else {
      assert (a + b)[0] == a[0] && (a + b)[1..] == a[1..] + b;
      HashAdds(a[1..], b);
    }
    ModAdd(TermSum(a), TermSum(b));
    ModAdd(TermSum(b), Hash(a));
  }

  /** The hash loop. */
  method CaseHash(key: string) returns (h: int)
    ensures h == Hash(key)
  {
    var sz, p := |key|, 0;
    h := 0;
    while sz > 0
      invariant 0 <= p <= |key| && sz == |key| - p
      invariant 0 <= h < SIZE_T && (h + TermSum(key[p..])) % SIZE_T == Hash(key)
      decreases sz
    {
      sz := sz - 1;
      var ch := key[p];
      p := p + 1;
      if 'a' <= ch <= 'z' {
        ch := ch - ' ';
      }
      var term := if ch as int < 128 then ch as int else ch as int - 256;
      assert key[p - 1..][1..] == key[p..];
      ModAdd(h + term, TermSum(key[p..]));
      h := (h + term) % SIZE_T;
    }
  }

  lemma ModAdd(x: int, y: int)
    ensures (x % SIZE_T + y) % SIZE_T == (x + y) % SIZE_T
  {
  }

  lemma {:induction false} SumFolds(a: string, b: string)
    requires LowerAll(a) == LowerAll(b)
    ensures TermSum(a) == TermSum(b)
  {
    assert |a| == |LowerAll(a)| == |b|;
    if a != "" {
      assert LowerAll(a)[0] == Lower(a[0]) && LowerAll(b)[0] == Lower(b[0]);
      assert forall i :: 0 <= i < |a| - 1 ==>
               LowerAll(a)[i + 1] == Lower(a[1..][i]) && LowerAll(b)[i + 1] == Lower(b[1..][i]);
      assert LowerAll(a[1..]) == LowerAll(b[1..]);
      SumFolds(a[1..], b[1..]);
    }
  }

  /** What the hash sums beyond the C string. */
  function Rest(s: string): string { s[|CStr(s)|..] }

  lemma {:induction false} CStrIsPrefix(s: string)
    ensures CStr(s) == s <==> NulFree(s)
    ensures TermSum(s) == TermSum(CStr(s)) + TermSum(s[|CStr(s)|..])
  {
    if s != "" && s[0] != '\0' {
      CStrIsPrefix(s[1..]);
      assert s == [s[0]] + s[1..] && CStr(s)[1..] == CStr(s[1..]);
      assert s[|CStr(s)|..] == s[1..][|CStr(s[1..])|..];
      if NulFree(s) {
        assert NulFree(s[1..]);
      }
      if CStr(s) == s {
        assert forall i :: 1 <= i < |s| ==> s[i] == s[1..][i - 1];
      }
    } else if s != "" {
      assert s[|CStr(s)|..] == s;
    }
  }

  /** Equal keys hash equally exactly when what follows their C strings does: always for
      NUL-free keys, which is what unordered containers need, but not in general. */
  lemma SameKeyHash(left: string, right: string)
    requires SameKey(left, right)
    ensures Hash(left) == Hash(right) <==> Hash(Rest(left)) == Hash(Rest(right))
    ensures NulFree(left) && NulFree(right) ==> Hash(left) == Hash(right)
  {
    SumFolds(CStr(left), CStr(right));
    CStrIsPrefix(left);
    CStrIsPrefix(right);
    var c, l, r := TermSum(CStr(left)), TermSum(Rest(left)), TermSum(Rest(right));
    CancelMod(c, l, r);
  }

  lemma CancelMod(c: int, l: int, r: int)
    ensures (c + l) % SIZE_T == (c + r) % SIZE_T <==> l % SIZE_T == r % SIZE_T
  {
  }

  /** Two keys equal under s_casecmp whose hashes differ. */
  lemma NulBreaksHash()
    ensures SameKey("a\0b", "A") && Hash("a\0b") != Hash("A")
  {
    var s, t := "a\0b", "A";
    assert s[1..] == "\0b" && s[1..][1..] == "b" && t[1..] == "";
    assert CStr(s) == "a" + CStr("\0b") == "a" && CStr(t) == "A";
    assert LowerAll("a") == "a" == LowerAll("A");
    assert TermSum("b") == HashTerm('b') + TermSum("");
    assert TermSum(s) == HashTerm('a') + (HashTerm('\0') + (HashTerm('b') + 0));
    assert TermSum(t) == HashTerm('A') + 0;
  }
}
