/** C strings: the values the <string.h> calls of the server see, as pure functions.
    A byte of a C buffer is a `char`; '\0' ends a string. */
module CStrings {

  const NUL := '\0'
  const CR := '\r'
  const LF := '\n'
  const CRLF := "\r\n"
  const BLANKS := " \t"

  /** The C string that starts at index i of the buffer b. */
  function CStr(b: seq<char>, i: nat): (s: string)
    requires i <= |b|
    ensures i + |s| <= |b| && s == b[i..i + |s|]
    ensures NUL !in s
    ensures i + |s| < |b| ==> b[i + |s|] == NUL
    decreases |b| - i
  {
    if i == |b| || b[i] == NUL then "" else [b[i]] + CStr(b, i + 1)
  }

  /** Index i of the buffer b holds exactly the string s, with its terminator in the buffer. */
  ghost predicate Spells(b: seq<char>, i: int, s: string) {
    && 0 <= i && i + |s| < |b|
    && (forall j :: 0 <= j < |s| ==> b[i + j] == s[j])
    && b[i + |s|] == NUL
    && NUL !in s
  }

  lemma {:induction false} SpellsCStr(b: seq<char>, i: int, s: string)
    requires Spells(b, i, s)
    ensures CStr(b, i) == s && 0 <= i && i + |s| < |b|
    decreases |s|
  {
    if s != "" {
      assert b[i] == s[0] && s[0] in s;
      SpellsCStr(b, i + 1, s[1..]);
    }
  }

  /** A string survives every write at or above a bound that lies past its terminator. */
  lemma SpellsFrame(b: seq<char>, b': seq<char>, i: int, s: string, limit: int)
    requires Spells(b, i, s) && i + |s| < limit <= |b| == |b'|
    requires b[..limit] == b'[..limit]
    ensures Spells(b', i, s)
  {
    assert b[i..i + |s|] == b[..limit][i..i + |s|];
    assert b'[i..i + |s|] == b'[..limit][i..i + |s|];
    assert b[i + |s|] == b[..limit][i + |s|];
    assert b'[i + |s|] == b'[..limit][i + |s|];
  }

  /** A suffix of a recorded string is itself recorded. */
  lemma SpellsDrop(b: seq<char>, i: int, s: string, k: nat)
    requires Spells(b, i, s) && k <= |s|
    ensures Spells(b, i + k, s[k..])
  {
    assert b[i + k..i + |s|] == b[i..i + |s|][k..];
  }

  /** Writing a terminator inside a recorded string cuts it in two. */
  lemma SpellsCut(b: seq<char>, i: int, s: string, k: nat)
    requires Spells(b, i, s) && k < |s|
    ensures Spells(b[i + k := NUL], i, s[..k])
    ensures Spells(b[i + k := NUL], i + k + 1, s[k + 1..])
  {
    var b' := b[i + k := NUL];
    assert b'[i..i + k] == b[i..i + |s|][..k];
    assert b'[i + k + 1..i + |s|] == b[i..i + |s|][k + 1..];
  }

  /** strcspn: how many leading characters of s avoid the set. */
  function FirstOf(s: string, stops: string): (k: nat)
    ensures k <= |s|
    ensures forall j :: 0 <= j < k ==> s[j] !in stops
    ensures k < |s| ==> s[k] in stops
  {
    if s == "" || s[0] in stops then 0 else
      var k := FirstOf(s[1..], stops);
      assert forall j :: 1 <= j < k + 1 ==> s[j] == s[1..][j - 1];
      1 + k
  }

  /** strspn: how many leading characters of s lie in the set. */
  function SpanOf(s: string, members: string): (k: nat)
    ensures k <= |s|
    ensures forall j :: 0 <= j < k ==> s[j] in members
    ensures k < |s| ==> s[k] !in members
  {
    if s == "" || s[0] !in members then 0 else
      var k := SpanOf(s[1..], members);
      assert forall j :: 1 <= j < k + 1 ==> s[j] == s[1..][j - 1];
      1 + k
  }

  /** FirstOf is the only index with its property. */
  lemma FirstOfIs(s: string, stops: string, k: nat)
    requires k <= |s| && (forall j :: 0 <= j < k ==> s[j] !in stops) && (k < |s| ==> s[k] in stops)
    ensures FirstOf(s, stops) == k
  {
  }

  lemma SpanOfIs(s: string, members: string, k: nat)
    requires k <= |s| && (forall j :: 0 <= j < k ==> s[j] in members) && (k < |s| ==> s[k] !in members)
    ensures SpanOf(s, members) == k
  {
  }

  function Lower(c: char): char {
    if 'A' <= c <= 'Z' then ('a' as int + (c as int - 'A' as int)) as char else c
  }

  /** Two characters are alike if they are the same, or one is a capital and the other its small letter,
      32 places further on. */
  lemma Alike(c: char, d: char)
    ensures Lower(c) == Lower(d) <==>
            c == d || ('A' <= c <= 'Z' && d as int == c as int + 32) || ('A' <= d <= 'Z' && c as int == d as int + 32)
  {
  }

  /** strcasecmp(s, t) == 0 */
  predicate EqNoCase(s: string, t: string) {
    |s| == |t| && forall i :: 0 <= i < |s| ==> Lower(s[i]) == Lower(t[i])
  }

  /** strncasecmp(s, prefix, strlen(prefix)) == 0 */
  predicate StartsNoCase(s: string, prefix: string) {
    |prefix| <= |s| && EqNoCase(s[..|prefix|], prefix)
  }

  /** The blanks at the front are skipped: `text += strspn(text, " \t")`. */
  function SkipBlanks(s: string): string {
    s[SpanOf(s, BLANKS)..]
  }

  /** What remains of a value after `*strpbrk(text, " \t") = '\0'`. */
  function FirstToken(s: string): string {
    s[..FirstOf(s, BLANKS)]
  }

  predicate Clean(s: string) {
    CR !in s && LF !in s && NUL !in s
  }

  predicate NoBlank(s: string) {
    Clean(s) && ' ' !in s && '\t' !in s
  }

  lemma EqLength(s: string, t: string)
    requires EqNoCase(s, t)
    ensures |s| == |t|
  {
  }

  lemma StartsFirst(s: string, prefix: string)
    requires StartsNoCase(s, prefix) && prefix != ""
    ensures s != "" && Lower(s[0]) == Lower(prefix[0])
  {
    assert s[..|prefix|][0] == s[0];
  }
}
