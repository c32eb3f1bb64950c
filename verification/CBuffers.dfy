/** strcpy, strcat and strncpy on a char array. */
module CBuffers {
  import opened CStrings

  /** strcpy(&a[i], s) */
  method StrCpy(a: array<char>, i: nat, s: string)
    requires NUL !in s && i + |s| < a.Length
    modifies a
    ensures Spells(a[..], i, s)
    ensures forall k :: 0 <= k < a.Length && !(i <= k <= i + |s|) ==> a[k] == old(a[k])
  {
    for j := 0 to |s|
      invariant forall k :: 0 <= k < j ==> a[i + k] == s[k]
      invariant forall k :: 0 <= k < a.Length && !(i <= k < i + j) ==> a[k] == old(a[k])
    {
      a[i + j] := s[j];
    }
    a[i + |s|] := NUL;
  }

  /** strcat(&a[i], s), where &a[i] spells head. */
  method StrCat(a: array<char>, i: nat, ghost head: string, s: string)
    requires Spells(a[..], i, head) && NUL !in s && i + |head| + |s| < a.Length
    modifies a
    ensures Spells(a[..], i, head + s)
    ensures forall k :: 0 <= k < a.Length && !(i + |head| <= k <= i + |head| + |s|) ==> a[k] == old(a[k])
  {
    hide CStr;
    SpellsCStr(a[..], i, head);
    StrCpy(a, i + |CStr(a[..], i)|, s);
    SpellsJoin(a[..], i, head, s);
  }

  /** strncpy(&a[i], s, n): at most n characters of s, and zeros up to n. */
  method StrNCpy(a: array<char>, i: nat, s: string, n: nat)
    requires i + n <= a.Length
    modifies a
    ensures forall k :: i <= k < i + n ==> a[k] == if k - i < |s| then s[k - i] else NUL
    ensures forall k :: 0 <= k < a.Length && !(i <= k < i + n) ==> a[k] == old(a[k])
  {
    for j := 0 to n
      invariant forall k :: i <= k < i + j ==> a[k] == if k - i < |s| then s[k - i] else NUL
      invariant forall k :: 0 <= k < a.Length && !(i <= k < i + j) ==> a[k] == old(a[k])
    {
      a[i + j] := if j < |s| then s[j] else NUL;
    }
  }

  lemma SpellsJoin(b: seq<char>, i: int, head: string, s: string)
    requires 0 <= i && Spells(b, i + |head|, s) && NUL !in head
    requires forall j :: 0 <= j < |head| ==> b[i + j] == head[j]
    ensures Spells(b, i, head + s)
  {
    forall j | 0 <= j < |head + s|
      ensures b[i + j] == (head + s)[j]
    {
      if j >= |head| {
        assert b[i + |head| + (j - |head|)] == s[j - |head|];
      }
    }
  }
}
