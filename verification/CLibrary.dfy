/** Character classes and strings as the C library has them, in the C locale. */
module CLibrary {
  const NUL := '\0'

  /** A C string: no NUL inside. */
  type CStr = s: string | NUL !in s

  predicate IsSpace(c: char) {
    c == ' ' || '\t' <= c <= '\r'
  }

  function SkipSpace(s: string): string {
    if s != [] && IsSpace(s[0]) then SkipSpace(s[1..]) else s
  }

  lemma {:induction false} SkipSpaceSkips(s: string)
    ensures var r := SkipSpace(s);
            && (forall i :: 0 <= i < |s| - |r| ==> IsSpace(s[i]))
            && (r != [] ==> !IsSpace(r[0]))
            && |r| <= |s| && r == s[|s| - |r|..]
  {
    if s == [] || !IsSpace(s[0]) {
    } else {
      SkipSpaceSkips(s[1..]);
      var r := SkipSpace(s[1..]);
      assert s[1..][|s| - 1 - |r|..] == s[|s| - |r|..];
    }
  }

  function Lower(c: char): char {
    if 'A' <= c <= 'Z' then c - 'A' + 'a' else c
  }

  /** strncasecmp(s, prefix, strlen(prefix)) == 0 */
  predicate HasPrefix(s: string, prefix: string) {
    |prefix| <= |s| && forall i :: 0 <= i < |prefix| ==> Lower(s[i]) == Lower(prefix[i])
  }

  // ---- The same by character codes ----

  /** The white space of the C locale: space, tab, newline, vertical tab, form feed, carriage return. */
  lemma SpaceCodes(c: char)
    ensures IsSpace(c) <==> c as int in {0x20, 0x09, 0x0A, 0x0B, 0x0C, 0x0D}
  {
  }

  /** Equal, or the two cases of one letter. */
  predicate SameLetter(a: char, b: char) {
    || a == b
    || ('A' <= a <= 'Z' && b as int == a as int + 0x20)
    || ('A' <= b <= 'Z' && a as int == b as int + 0x20)
  }

  lemma PrefixLetters(s: string, prefix: string)
    ensures HasPrefix(s, prefix)
       <==> |prefix| <= |s| && forall i :: 0 <= i < |prefix| ==> SameLetter(s[i], prefix[i])
  {
    forall i | 0 <= i < |prefix| && i < |s| ensures Lower(s[i]) == Lower(prefix[i]) <==> SameLetter(s[i], prefix[i]) {
      LowerSame(s[i], prefix[i]);
    }
    hide Lower, SameLetter;
  }

  lemma LowerSame(a: char, b: char)
    ensures Lower(a) == Lower(b) <==> SameLetter(a, b)
  {
  }
}
