/** Octets as numbers, and strings that arrive in pieces. */
module OctetStrings {
  type Octet = n: nat | n < 256
  type Octets = seq<Octet>

  /** The pieces of a string one after the other. */
  function Concat<T>(pieces: seq<seq<T>>): seq<T> {
    if pieces == [] then [] else pieces[0] + Concat(pieces[1..])
  }

  /** Moving the next piece from what is to come to what has come. */
  lemma NextPiece<T>(come: seq<T>, pieces: seq<seq<T>>, i: nat)
    requires i < |pieces|
    ensures come + pieces[i] + Concat(pieces[i + 1..]) == come + Concat(pieces[i..])
  {
    assert pieces[i..][1..] == pieces[i + 1..];
    assert come + pieces[i] + Concat(pieces[i + 1..]) == come + (pieces[i] + Concat(pieces[i + 1..]));
  }

  /** A string cut up: pieces of the wanted sizes, as far as it reaches, and what is left. */
  function CutUp<T>(s: seq<T>, sizes: seq<nat>): seq<seq<T>>
    decreases |sizes|
  {
    if sizes == [] then [s]
    else
      var n := if sizes[0] <= |s| then sizes[0] else |s|;
      [s[..n]] + CutUp(s[n..], sizes[1..])
  }

  lemma {:induction false} ConcatCutUp<T>(s: seq<T>, sizes: seq<nat>)
    ensures Concat(CutUp(s, sizes)) == s
    decreases |sizes|
  {
    if sizes == [] {
      assert Concat([s]) == s + Concat([s][1..]);
    } else {
      var n := if sizes[0] <= |s| then sizes[0] else |s|;
      ConcatCutUp(s[n..], sizes[1..]);
      assert CutUp(s, sizes)[1..] == CutUp(s[n..], sizes[1..]);
      assert s == s[..n] + s[n..];
    }
  }
}
