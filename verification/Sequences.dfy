/** Sequences with one element put in or taken out. */
module Sequences {

  function Inserted<T>(s: seq<T>, k: nat, x: T): (r: seq<T>)
    requires k <= |s|
    ensures |r| == |s| + 1
  {
    s[..k] + [x] + s[k..]
  }

  function Removed<T>(s: seq<T>, k: nat): (r: seq<T>)
    requires k < |s|
    ensures |r| == |s| - 1
  {
    s[..k] + s[k + 1..]
  }

  // The elements before the place stay, and those from it on are one place further back.
  lemma InsertedAt<T>(list: seq<T>, k: nat, x: T)
    requires k <= |list|
    ensures forall i {:trigger Inserted(list, k, x)[i]} :: 0 <= i <= |list| ==>
              Inserted(list, k, x)[i] == if i < k then list[i] else if i == k then x else list[i - 1]
    ensures forall i {:trigger list[i]} :: 0 <= i < |list| ==>
            list[i] == Inserted(list, k, x)[if i < k then i else i + 1]
  {
  }

  // The elements before the place stay, and those behind it are one place further in front.
  lemma RemovedAt<T>(s: seq<T>, k: nat, i: nat)
    requires k < |s| && i < |s| - 1
    ensures Removed(s, k)[i] == if i < k then s[i] else s[i + 1]
  {
  }

  lemma AppendAssoc<T>(a: seq<T>, b: seq<T>, c: seq<T>)
    ensures (a + b) + c == a + (b + c)
  {
  }
}
