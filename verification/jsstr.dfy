/** ECMAScript `String.prototype.split` and `Array.prototype.join`, for a
    separator of one character, as the page uses them on an article's date. */
module JsStr {

  /** How many times `c` occurs in `s`. */
  function Occurrences(s: string, c: char): nat
  {
    if s == [] then 0 else (if s[0] == c then 1 else 0) + Occurrences(s[1..], c)
  }

  /** `s.split(sep)`: the pieces between separators, empty ones included;
      the empty string gives one empty piece. */
  function Split(s: string, sep: char): (pieces: seq<string>)
    ensures |pieces| == Occurrences(s, sep) + 1
    ensures forall piece <- pieces :: sep !in piece
  {
    if s == [] then [""]
    else
      var rest := Split(s[1..], sep);
      if s[0] == sep then [""] + rest
      else [[s[0]] + rest[0]] + rest[1..]
  }

  /** `pieces.join(sep)`. */
  function Join(pieces: seq<string>, sep: char): string
  {
    if pieces == [] then ""
    else if |pieces| == 1 then pieces[0]
    else pieces[0] + [sep] + Join(pieces[1..], sep)
  }

  /** Joining the pieces of a split gives back the string. */
  lemma {:induction false} JoinSplit(s: string, sep: char)
    ensures Join(Split(s, sep), sep) == s
  {
    if s != [] {
      var rest := Split(s[1..], sep);
      JoinSplit(s[1..], sep);
      if s[0] == sep {
        assert ([""] + rest)[1..] == rest;
      } else if |rest| > 1 {
        assert ([[s[0]] + rest[0]] + rest[1..])[1..] == rest[1..];
      }
    }
  }

  /** A separator-free prefix glues onto the first piece of what follows it. */
  lemma {:induction false} SplitAfterPlainPrefix(p: string, r: string, sep: char)
    requires sep !in p
    ensures Split(p + r, sep) == [p + Split(r, sep)[0]] + Split(r, sep)[1..]
  {
    if p != [] {
      SplitAfterPlainPrefix(p[1..], r, sep);
      assert (p + r)[1..] == p[1..] + r;
      assert (p + r)[0] == p[0];
      assert [p[0]] + (p[1..] + Split(r, sep)[0]) == p + Split(r, sep)[0];
    } else {
      assert p + r == r && p + Split(r, sep)[0] == Split(r, sep)[0];
      assert Split(r, sep) == [Split(r, sep)[0]] + Split(r, sep)[1..];
    }
  }

  /** Splitting separator-free pieces joined by the separator gives them back. */
  lemma {:induction false} SplitJoin(pieces: seq<string>, sep: char)
    requires |pieces| >= 1
    requires forall piece <- pieces :: sep !in piece
    ensures Split(Join(pieces, sep), sep) == pieces
  {
    var p := pieces[0];
    if |pieces| == 1 {
      SplitAfterPlainPrefix(p, "", sep);
      assert p + "" == p;
    } else {
      var more := pieces[1..];
      assert more[0] in pieces;
      SplitJoin(more, sep);
      var r := [sep] + Join(more, sep);
      assert Join(pieces, sep) == p + r;
      SplitAfterPlainPrefix(p, r, sep);
      assert r[1..] == Join(more, sep);
      assert p + "" == p;
      assert pieces == [p] + more;
    }
  }
}
