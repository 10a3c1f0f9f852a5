/** Input that arrives in pieces. */
module Pieces {
  import opened Rlp

  function Concat(pieces: seq<Bytes>): Bytes {
    if pieces == [] then [] else pieces[0] + Concat(pieces[1..])
  }
}
