/** Small shared vocabulary: optional values, byte strings and sequences. */
module Prelude {

  datatype Option<+T> = None | Some(value: T)

  type Byte = b: int | 0 <= b < 256

  type Bytes = seq<Byte>

  predicate Distinct<T(==)>(s: seq<T>) {
    forall i, j :: 0 <= i < j < |s| ==> s[i] != s[j]
  }

  predicate IsAscii(s: string): (ascii: bool)
    ensures ascii <==> forall c :: c in s ==> c as int < 128
  {
    assert forall i :: 0 <= i < |s| ==> s[i] in s;
    forall i :: 0 <= i < |s| ==> s[i] as int < 128
  }

  // Adjacent snapshots of a sequence that grows at its end.
  lemma SnocSplit<T>(xs: seq<T>, x: T)
    ensures (xs + [x])[..|xs|] == xs
    ensures (xs + [x])[|xs|] == x
  {
    assert (xs + [x])[..|xs|] == xs;
  }

  lemma Associates<T>(a: seq<T>, b: seq<T>, c: seq<T>)
    ensures a + b + c == a + (b + c)
  {
  }
}
