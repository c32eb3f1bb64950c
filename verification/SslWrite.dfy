/** SSL_writev: one encrypted write of what a gathering write would have sent. */
module SslWrite {

  /** iov_base as a place in memory, and iov_len. */
  datatype Vec = Vec(memory: array<char>, base: nat, len: nat)

  /** The vectors lie in memory and cover these texts. */
  ghost predicate Covers(vs: seq<Vec>, texts: seq<string>)
    reads set v | v in vs :: v.memory
  {
    && |vs| == |texts|
    && forall i :: 0 <= i < |vs| ==>
         vs[i].base + vs[i].len <= vs[i].memory.Length && vs[i].memory[vs[i].base..vs[i].base + vs[i].len] == texts[i]
  }

  ghost function Flat(texts: seq<string>): string {
    if texts == [] then "" else texts[0] + Flat(texts[1..])
  }

  lemma {:induction false} FlatSplit(texts: seq<string>, i: nat)
    requires i < |texts|
    ensures Flat(texts[..i + 1]) == Flat(texts[..i]) + texts[i]
    ensures Flat(texts) == Flat(texts[..i + 1]) + Flat(texts[i + 1..])
  {
    if i == 0 {
      assert texts[..1][1..] == [];
      assert texts[..1] == [texts[0]];
    } else {
      FlatSplit(texts[1..], i - 1);
      assert texts[..i + 1][1..] == texts[1..][..i] && texts[..i][1..] == texts[1..][..i - 1];
      assert texts[1..][i..] == texts[i + 1..];
    }
  }

  /** The buffer handed to SSL_write holds exactly what a gathering write of the vectors sends:
      the copying stops early only when nothing is left to copy, and never cuts a vector. */
  method SslWritev(vector: seq<Vec>, ghost texts: seq<string>) returns (buffer: array<char>, bytes: nat)
    requires Covers(vector, texts)
    ensures bytes == buffer.Length && buffer[..] == Flat(texts)
  {
    bytes := 0;
    for i := 0 to |vector|
      invariant bytes == |Flat(texts[..i])|
    {
      FlatSplit(texts, i);
      bytes := bytes + vector[i].len;
    }
    assert texts[..|vector|] == texts;
    buffer := new char[bytes];
    var toCopy: nat := bytes;
    var bp: nat := 0;
    assert texts[0..] == texts;
    for i := 0 to |vector|
      invariant bp + toCopy == bytes == |Flat(texts)| && buffer.Length == bytes && fresh(buffer)
      invariant bp == |Flat(texts[..i])| && buffer[..bp] == Flat(texts[..i])
      invariant Covers(vector, texts)
    {
      FlatSplit(texts, i);
      var copy := if vector[i].len > toCopy then toCopy else vector[i].len;
      assert copy == |texts[i]|;
      Copy(buffer, bp, vector[i].memory, vector[i].base, copy);
      bp := bp + copy;
      toCopy := toCopy - copy;
      if toCopy == 0 {
        assert Flat(texts) == Flat(texts[..i + 1]);
        break;
      }
    }
    assert buffer[..bp] == buffer[..];
  }

  /** memcpy */
  method Copy(to: array<char>, at: nat, from: array<char>, base: nat, n: nat)
    requires at + n <= to.Length && base + n <= from.Length && to != from
    modifies to
    ensures to[..at + n] == old(to[..at]) + from[base..base + n]
  {
    for j := 0 to n
      invariant to[..at + j] == old(to[..at]) + from[base..base + j]
    {
      to[at + j] := from[base + j];
    }
  }
}
