/** Go byte strings and `strings.Split` with a one-byte separator. */
module Bytes {

  /** A Go byte, seen as the character with that code. */
  type Byte = c: char | c as int < 256 witness ' '
  type Bytes = seq<Byte>

  /** The blank that fills every unwritten column of a row. */
  const BLANK: Byte := ' '

  function Blanks(n: nat): (r: Bytes)
    ensures |r| == n
    ensures forall i :: 0 <= i < n ==> r[i] == BLANK
  {
    seq(n, _ => BLANK)
  }

  /** Number of occurrences of `c` in `s`. */
  function Count(s: Bytes, c: Byte): nat
  {
    if s == [] then 0 else (if s[0] == c then 1 else 0) + Count(s[1..], c)
  }

  /**
   * `strings.Split(s, sep)` for a one-byte separator: the pieces of `s`
   * between occurrences of `sep`, in order, empty pieces included; the empty
   * string gives one empty piece.
   */
  function Split(s: Bytes, sep: Byte): (r: seq<Bytes>)
    ensures |r| >= 1
  {
    if s == [] then [[]]
    else
      var rest := Split(s[1..], sep);
      if s[0] == sep then [[]] + rest
      else [[s[0]] + rest[0]] + rest[1..]
  }

  /** `strings.Join(pieces, sep)`: the inverse of `Split`. */
  function Join(pieces: seq<Bytes>, sep: Byte): Bytes
  {
    if pieces == [] then []
    else if |pieces| == 1 then pieces[0]
    else pieces[0] + [sep] + Join(pieces[1..], sep)
  }

  /** Joining the pieces of a split gives back the string. */
  lemma {:induction false} JoinSplit(s: Bytes, sep: Byte)
    ensures Join(Split(s, sep), sep) == s
  {
    if s != [] {
      JoinSplit(s[1..], sep);
      var rest := Split(s[1..], sep);
      if s[0] != sep {
        if |rest| == 1 {
          assert Join(Split(s, sep), sep) == [s[0]] + rest[0];
        } else {
          assert rest == [rest[0]] + rest[1..];
          assert Join(rest, sep) == rest[0] + [sep] + Join(rest[1..], sep);
        }
      }
    }
  }

  /** No piece of a split contains the separator. */
  lemma {:induction false} SplitPiecesFree(s: Bytes, sep: Byte)
    ensures forall p :: p in Split(s, sep) ==> sep !in p
  {
    if s != [] {
      SplitPiecesFree(s[1..], sep);
      var rest := Split(s[1..], sep);
      if s[0] != sep {
        assert sep !in rest[0];
        forall p | p in Split(s, sep) ensures sep !in p {
          if p != [s[0]] + rest[0] {
            assert p in rest[1..];
          }
        }
      }
    }
  }

  /** A string with `k` separators splits into `k + 1` pieces. */
  lemma {:induction false} SplitLength(s: Bytes, sep: Byte)
    ensures |Split(s, sep)| == Count(s, sep) + 1
  {
    if s != [] {
      SplitLength(s[1..], sep);
    }
  }

  /** A string without the separator is its own only piece. */
  lemma {:induction false} SplitFree(s: Bytes, sep: Byte)
    requires sep !in s
    ensures Split(s, sep) == [s]
  {
    if s != [] {
      assert s[0] != sep;
      SplitFree(s[1..], sep);
      assert [s[0]] + s[1..] == s;
    }
  }

  /** Splitting at a first separator: the piece before it comes first. */
  lemma {:induction false} SplitAtFirst(x: Bytes, sep: Byte, y: Bytes)
    requires sep !in x
    ensures Split(x + [sep] + y, sep) == [x] + Split(y, sep)
  {
    if x == [] {
      assert x + [sep] + y == [sep] + y;
      assert ([sep] + y)[1..] == y;
    } else {
      assert (x + [sep] + y)[1..] == x[1..] + [sep] + y;
      SplitAtFirst(x[1..], sep, y);
      assert [x[0]] + x[1..] == x;
    }
  }

  /** Split undoes Join when no piece contains the separator. */
  lemma {:induction false} SplitJoin(pieces: seq<Bytes>, sep: Byte)
    requires |pieces| >= 1
    requires forall p :: p in pieces ==> sep !in p
    ensures Split(Join(pieces, sep), sep) == pieces
  {
    if |pieces| == 1 {
      SplitFree(pieces[0], sep);
    } else {
      assert pieces[0] in pieces;
      assert forall p :: p in pieces[1..] ==> p in pieces;
      SplitJoin(pieces[1..], sep);
      SplitAtFirst(pieces[0], sep, Join(pieces[1..], sep));
      assert [pieces[0]] + pieces[1..] == pieces;
    }
  }

  /** Joining two non-empty lists of pieces puts one separator between their joins. */
  lemma {:induction false} JoinConcat(p: seq<Bytes>, q: seq<Bytes>, sep: Byte)
    requires |p| >= 1 && |q| >= 1
    ensures Join(p + q, sep) == Join(p, sep) + [sep] + Join(q, sep)
  {
    var pq := p + q;
    assert pq[0] == p[0];
    if |p| == 1 {
      assert pq[1..] == q;
    } else {
      assert pq[1..] == p[1..] + q;
      JoinConcat(p[1..], q, sep);
    }
  }

  /** Splitting at any separator: the pieces before it, then the pieces after it. */
  lemma SplitConcat(x: Bytes, sep: Byte, y: Bytes)
    ensures Split(x + [sep] + y, sep) == Split(x, sep) + Split(y, sep)
  {
    var p, q := Split(x, sep), Split(y, sep);
    JoinSplit(x, sep);
    JoinSplit(y, sep);
    JoinConcat(p, q, sep);
    SplitPiecesFree(x, sep);
    SplitPiecesFree(y, sep);
    assert forall piece :: piece in p + q ==> piece in p || piece in q;
    SplitJoin(p + q, sep);
  }

  /** Appending a separator-free piece after a separator adds exactly that piece. */
  lemma {:induction false} SplitAppend(x: Bytes, sep: Byte, y: Bytes)
    requires sep !in y
    ensures Split(x + [sep] + y, sep) == Split(x, sep) + [y]
  {
    if x == [] {
      assert x + [sep] + y == [sep] + y;
      assert ([sep] + y)[1..] == y;
      SplitFree(y, sep);
    } else {
      assert (x + [sep] + y)[1..] == x[1..] + [sep] + y;
      SplitAppend(x[1..], sep, y);
      var r := Split(x[1..], sep);
      if x[0] != sep {
        assert (r + [y])[0] == r[0];
        assert (r + [y])[1..] == r[1..] + [y];
      }
    }
  }
}
