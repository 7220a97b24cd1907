/** The pair substitution rules of playfair.py:113-137: same row shifts
    along the row, same column shifts along the column, otherwise the
    rectangle swap; indices wrap modulo the matrix side. A pair with a symbol
    that is not in the matrix passes through unchanged. */
module Substitution {
  import opened Matrix

  /** Encryption or decryption, as chosen in the UI. */
  datatype Direction = Encrypt | Decrypt

  /** The matrix invariant the rules rely on: square, no symbol twice. */
  predicate WellFormed(m: Grid) {
    IsSquare(m) && CellsDistinct(m)
  }

  function Shift(x: nat, n: nat, d: Direction): (y: nat)
    requires x < n
    ensures y < n
  {
    if d == Encrypt then (x + 1) % n else (x - 1) % n
  }

  /** `encrypt_pair` (d == Encrypt) and `decrypt_pair` (d == Decrypt). */
  function SubstitutePair(m: Grid, a: char, b: char, d: Direction): (r: string)
    requires IsSquare(m)
    ensures |r| == 2
    ensures Locate(m, a).NotFound? || Locate(m, b).NotFound? ==> r == [a, b]
  {
    var pa, pb := Locate(m, a), Locate(m, b);
    if pa.NotFound? || pb.NotFound? then [a, b]
    else
      var n := |m|;
      if pa.row == pb.row then
        [m[pa.row][Shift(pa.col, n, d)], m[pb.row][Shift(pb.col, n, d)]]
      else if pa.col == pb.col then
        [m[Shift(pa.row, n, d)][pa.col], m[Shift(pb.row, n, d)][pb.col]]
      else
        [m[pa.row][pb.col], m[pb.row][pa.col]]
  }

  function EncryptPair(m: Grid, a: char, b: char): (r: string)
    requires IsSquare(m)
    ensures |r| == 2
  {
    SubstitutePair(m, a, b, Encrypt)
  }

  function DecryptPair(m: Grid, a: char, b: char): (r: string)
    requires IsSquare(m)
    ensures |r| == 2
  {
    SubstitutePair(m, a, b, Decrypt)
  }

  function Opposite(d: Direction): Direction {
    if d == Encrypt then Decrypt else Encrypt
  }

  /** Shifting one way and then the other returns to the start. */
  lemma ShiftBack(x: nat, n: nat, d: Direction)
    requires x < n
    ensures Shift(Shift(x, n, d), n, Opposite(d)) == x
  {
    if d == Encrypt {
      if x + 1 < n {
        assert (x + 1) % n == x + 1;
      } else {
        assert (x + 1) % n == 0;
        assert (0 - 1) % n == n - 1;
      }
    } else {
      if x > 0 {
        assert (x - 1) % n == x - 1;
        assert (x - 1 + 1) % n == x;
      } else {
        assert (x - 1) % n == n - 1;
        assert (n - 1 + 1) % n == 0;
      }
    }
  }

  /** Shifting is injective. */
  lemma ShiftInjective(x: nat, y: nat, n: nat, d: Direction)
    requires x < n && y < n && Shift(x, n, d) == Shift(y, n, d)
    ensures x == y
  {
    ShiftBack(x, n, d);
    ShiftBack(y, n, d);
  }

  /** Substituting in one direction and then in the other gives back the
      pair, for every pair: found pairs by the three rules, the others by
      passing through. */
  lemma {:induction false} SubstituteRoundTrip(m: Grid, a: char, b: char, d: Direction)
    requires WellFormed(m)
    ensures var e := SubstitutePair(m, a, b, d);
      SubstitutePair(m, e[0], e[1], Opposite(d)) == [a, b]
  {
    var pa, pb := Locate(m, a), Locate(m, b);
    var e := SubstitutePair(m, a, b, d);
    if pa.NotFound? || pb.NotFound? {
      assert e == [a, b];
    } else {
      var n := |m|;
      var (ra, ca, rb, cb) := (pa.row, pa.col, pb.row, pb.col);
      if ra == rb {
        var ca', cb' := Shift(ca, n, d), Shift(cb, n, d);
        LocateCell(m, ra, ca');
        LocateCell(m, rb, cb');
        ShiftBack(ca, n, d);
        ShiftBack(cb, n, d);
      } else if ca == cb {
        var ra', rb' := Shift(ra, n, d), Shift(rb, n, d);
        LocateCell(m, ra', ca);
        LocateCell(m, rb', cb);
        ShiftBack(ra, n, d);
        ShiftBack(rb, n, d);
        if ra' == rb' {
          ShiftInjective(ra, rb, n, d);
        }
      } else {
        LocateCell(m, ra, cb);
        LocateCell(m, rb, ca);
      }
    }
  }

  /** `decrypt_pair` undoes `encrypt_pair`. */
  lemma DecryptEncrypt(m: Grid, a: char, b: char)
    requires WellFormed(m)
    ensures var e := EncryptPair(m, a, b); DecryptPair(m, e[0], e[1]) == [a, b]
  {
    SubstituteRoundTrip(m, a, b, Encrypt);
  }

  /** `encrypt_pair` undoes `decrypt_pair`. */
  lemma EncryptDecrypt(m: Grid, a: char, b: char)
    requires WellFormed(m)
    ensures var e := DecryptPair(m, a, b); EncryptPair(m, e[0], e[1]) == [a, b]
  {
    SubstituteRoundTrip(m, a, b, Decrypt);
  }

  /** In the rectangle case encryption and decryption agree. */
  lemma RectangleSelfInverse(m: Grid, a: char, b: char)
    requires IsSquare(m)
    requires Locate(m, a).At? && Locate(m, b).At?
    requires Locate(m, a).row != Locate(m, b).row && Locate(m, a).col != Locate(m, b).col
    ensures EncryptPair(m, a, b) == DecryptPair(m, a, b)
    ensures EncryptPair(m, a, b) == [m[Locate(m, a).row][Locate(m, b).col], m[Locate(m, b).row][Locate(m, a).col]]
  {
  }

  /** A pair of two different matrix symbols is substituted by two different
      matrix symbols. */
  lemma SubstituteKeepsDistinct(m: Grid, a: char, b: char, d: Direction)
    requires WellFormed(m) && a != b
    ensures var e := SubstitutePair(m, a, b, d); e[0] != e[1]
    ensures var e := SubstitutePair(m, a, b, d);
      Locate(m, a).At? && Locate(m, b).At? ==> Locate(m, e[0]).At? && Locate(m, e[1]).At?
  {
    var pa, pb := Locate(m, a), Locate(m, b);
    if pa.At? && pb.At? {
      var n := |m|;
      if pa.row == pb.row {
        if Shift(pa.col, n, d) == Shift(pb.col, n, d) {
          ShiftInjective(pa.col, pb.col, n, d);
        }
      } else if pa.col == pb.col {
        if Shift(pa.row, n, d) == Shift(pb.row, n, d) {
          ShiftInjective(pa.row, pb.row, n, d);
        }
      }
    }
  }
}
