// external/cpp-httplib/httplib.h: the content receivers that both readers hand
// their pieces to.
module Receivers {
  import opened Substrings

  type Taking = (seq<char>, seq<char>) -> bool

  // Takes pieces until it refuses one; then it is given no other.
  class ContentReceiver {
    // Whether it takes a piece after what it has received.
    const accepts: Taking
    var received: seq<char>
    var refused: bool
    // What it was given, one call at a time.
    ghost var pieces: seq<seq<char>>

    // Every piece was taken, but for the last one of a receiver that has refused.
    ghost predicate Valid()
      reads this
    {
      && received == Flat(pieces)
      && (if refused then Refuses(accepts, pieces) else AllTaken(accepts, pieces))
    }

    constructor (taking: Taking)
      ensures Valid() && accepts == taking && received == [] && !refused
    {
      accepts, received, refused, pieces := taking, [], false, [];
    }

    method Receive(piece: seq<char>) returns (ok: bool)
      requires Valid() && !refused
      modifies this
      ensures Valid() && pieces == old(pieces) + [piece]
      ensures ok == accepts(old(received), piece) && received == old(received) + piece && refused == !ok
    {
      OnePieceMore(accepts, pieces, piece);
      ok := accepts(received, piece);
      received := received + piece;
      refused := !ok;
      pieces := pieces + [piece];
    }
  }

  // Takes every piece.
  ghost predicate TakesAll(accepts: Taking)
  {
    forall before: seq<char>, piece: seq<char> :: accepts(before, piece)
  }

  ghost predicate AllTaken(accepts: Taking, pieces: seq<seq<char>>)
  {
    forall i :: 0 <= i < |pieces| ==> accepts(Flat(pieces[..i]), pieces[i])
  }

  ghost predicate Refuses(accepts: Taking, pieces: seq<seq<char>>)
  {
    && |pieces| > 0 && AllTaken(accepts, pieces[..|pieces| - 1])
    && !accepts(Flat(pieces[..|pieces| - 1]), pieces[|pieces| - 1])
  }

  lemma OnePieceMore(accepts: Taking, pieces: seq<seq<char>>, piece: seq<char>)
    requires AllTaken(accepts, pieces)
    ensures Flat(pieces + [piece]) == Flat(pieces) + piece
    ensures if accepts(Flat(pieces), piece) then AllTaken(accepts, pieces + [piece]) else Refuses(accepts, pieces + [piece])
  {
    var all := pieces + [piece];
    assert all[..|pieces|] == pieces && all[|all| - 1] == piece;
    forall i | 0 <= i < |pieces|
      ensures all[..i] == pieces[..i] && all[i] == pieces[i]
    {
    }
  }
}
