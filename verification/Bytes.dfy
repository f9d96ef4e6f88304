/** Bytes as numbers, and the C conventions the server uses on them. */
module Bytes {
  type Byte = x: int | 0 <= x < 256

  // Texts handed over by pointer alone hold no NUL, which ends a C string.
  predicate NulFree(s: seq<Byte>) {
    0 !in s
  }

  // The length of the C string that `memory` starts with, at most all of `memory`.
  function StrLen(memory: seq<Byte>): (n: nat)
    ensures n <= |memory|
    ensures n < |memory| ==> memory[n] == 0
    ensures forall i :: 0 <= i < n ==> memory[i] != 0
  {
    if memory == [] || memory[0] == 0 then 0 else 1 + StrLen(memory[1..])
  }

  // The C string that `memory` starts with.
  function CString(memory: seq<Byte>): (s: seq<Byte>)
    ensures NulFree(s)
  {
    memory[..StrLen(memory)]
  }

  lemma StrLenUnique(memory: seq<Byte>, n: nat)
    requires n <= |memory| && (n < |memory| ==> memory[n] == 0)
    requires forall i :: 0 <= i < n ==> memory[i] != 0
    ensures StrLen(memory) == n && CString(memory) == memory[..n]
  {
  }

  // A NUL-free text with NUL bytes behind it is the C string it was.
  lemma CStringOfPadded(text: seq<Byte>, zeros: seq<Byte>)
    requires NulFree(text) && (zeros == [] || zeros[0] == 0)
    ensures StrLen(text + zeros) == |text| && CString(text + zeros) == text
  {
    StrLenUnique(text + zeros, |text|);
    assert (text + zeros)[..|text|] == text;
  }
}
