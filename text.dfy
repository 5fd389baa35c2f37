/**
 * String helpers shared by the path functions and the query-string parser:
 * `s.split(c)` and dropping empty pieces.
 */
module Text {

  /** `s.split(c)`: the pieces between occurrences of `c`, at least one. */
  function Pieces(s: string, c: char): (r: seq<string>)
    ensures |r| >= 1
    ensures forall i :: 0 <= i < |r| ==> c !in r[i]
  {
    if s == [] then [""]
    else if s[0] == c then [""] + Pieces(s[1..], c)
    else
      var rest := Pieces(s[1..], c);
      [[s[0]] + rest[0]] + rest[1..]
  }

  /** A string without `c` is a single piece. */
  lemma {:induction false} OnePiece(s: string, c: char)
    requires c !in s
    ensures Pieces(s, c) == [s]
  {
    if s != [] {
      OnePiece(s[1..], c);
      assert [s[0]] + s[1..] == s;
    }
  }

  /** The pieces that are not the empty string, in order. */
  function Filled(pieces: seq<string>): (r: seq<string>)
    ensures |r| <= |pieces|
    ensures forall i :: 0 <= i < |r| ==> r[i] != "" && r[i] in pieces
  {
    if pieces == [] then []
    else (if pieces[0] == "" then [] else [pieces[0]]) + Filled(pieces[1..])
  }
}
