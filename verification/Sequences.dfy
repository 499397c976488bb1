/** Sequences that a loop takes apart from the front. */
module Sequences {

  /** If what is left from k on is `piece` and then `rest`, then taking `piece` leaves `rest`. */
  lemma TakeNext<T>(all: seq<T>, k: nat, piece: seq<T>, rest: seq<T>)
    requires k <= |all| && all[k..] == piece + rest
    ensures k + |piece| <= |all| && all[..k] + piece == all[..k + |piece|] && rest == all[k + |piece|..]
  {
    assert |all[k..]| == |piece| + |rest|;
    forall i | 0 <= i < |piece| ensures all[k + i] == piece[i] { assert all[k..][i] == (piece + rest)[i]; }
    forall i | 0 <= i < |rest|
      ensures all[k + |piece| + i] == rest[i]
    {
      assert all[k..][|piece| + i] == (piece + rest)[|piece| + i];
    }
  }
}
