/** Byte strings and the two ways a file operation changes one: a write at an offset
    and a change of length.  Both fill what they skip with zeros. */
module Bytes {

  newtype Byte = b: int | 0 <= b < 256

  function Min(a: int, b: int): int {
    if a < b then a else b
  }

  function Max(a: int, b: int): int {
    if a < b then b else a
  }

  function Zeros(n: nat): (z: seq<Byte>)
    ensures |z| == n
    ensures forall i :: 0 <= i < n ==> z[i] == 0
  {
    seq(n, _ => 0)
  }

  /** A file cut or extended to exactly `n` bytes. */
  function Resize(file: seq<Byte>, n: nat): (r: seq<Byte>)
    ensures |r| == n
    ensures forall i :: 0 <= i < n ==> r[i] == if i < |file| then file[i] else 0
  {
    if n <= |file| then file[..n] else file + Zeros(n - |file|)
  }

  /** A file after `data` has been written at offset `at`.  Writing nothing changes
      nothing, not even the length of a file that ends before `at`. */
  function Overwrite(file: seq<Byte>, at: nat, data: seq<Byte>): (r: seq<Byte>)
    ensures |r| == if data == [] then |file| else Max(|file|, at + |data|)
    ensures forall i :: 0 <= i < |r| ==>
      r[i] == if at <= i < at + |data| then data[i - at] else if i < |file| then file[i] else 0
  {
    if data == [] then
      file
    else
      Resize(file, at) + data + if at + |data| <= |file| then file[at + |data|..] else []
  }

  /** Two adjoining writes are one. */
  lemma OverwriteJoin(file: seq<Byte>, at: nat, a: seq<Byte>, next: nat, b: seq<Byte>, ab: seq<Byte>)
    requires next == at + |a| && ab == a + b
    ensures Overwrite(Overwrite(file, at, a), next, b) == Overwrite(file, at, ab)
  {
    var once, twice := Overwrite(file, at, ab), Overwrite(Overwrite(file, at, a), next, b);
    assert a == [] ==> ab == b;
    assert b == [] ==> ab == a;
    assert |once| == |twice|;
    assert forall i :: 0 <= i < |once| ==> once[i] == twice[i];
  }

  /** A write continued with its next bytes. */
  lemma OverwriteOn(file: seq<Byte>, pos: nat, data: seq<Byte>, done: nat, at: nat, chunk: seq<Byte>, next: nat)
    requires done <= next <= |data| && at == pos + done && chunk == data[done..][..next - done]
    ensures Overwrite(Overwrite(file, pos, data[..done]), at, chunk) == Overwrite(file, pos, data[..next])
  {
    assert data[..next] == data[..done] + chunk;
    OverwriteJoin(file, pos, data[..done], at, chunk, data[..next]);
  }
}
