/** The key square: construction from a key (playfair.py:12-33) and the
    lookup of a symbol's position (playfair.py:35-39). A matrix is a list of
    rows, each a list of one-character symbols. */
module Matrix {
  import opened Seqs
  import opened Chars

  type Grid = seq<seq<char>>

  /** The cells in row-major order. */
  function Flatten(m: Grid): string {
    if m == [] then [] else m[0] + Flatten(m[1..])
  }

  predicate IsSquare(m: Grid) {
    forall r :: 0 <= r < |m| ==> |m[r]| == |m|
  }

  /** No symbol occupies two cells. */
  predicate CellsDistinct(m: Grid) {
    forall i, j, k, l ::
      (0 <= i < |m| && 0 <= j < |m[i]| && 0 <= k < |m| && 0 <= l < |m[k]| &&
       m[i][j] == m[k][l]) ==> i == k && j == l
  }

  /** A matrix of the given size holding each symbol of that size's alphabet
      exactly once and nothing else. */
  predicate FullMatrix(size: Size, m: Grid) {
    && |m| == Side(size) && IsSquare(m) && CellsDistinct(m)
    && (forall i, j :: 0 <= i < |m| && 0 <= j < |m| ==> IsSymbol(size, m[i][j]))
    && (forall c :: IsSymbol(size, c) ==>
          exists i, j :: 0 <= i < |m| && 0 <= j < |m| && m[i][j] == c)
  }

  /** The order in which symbols fill the matrix: the key's distinct symbols
      in first-occurrence order, then the rest of the alphabet. */
  function KeyOrder(size: Size, key: string): string {
    AppendUnseen(Dedup(Normalize(size, key)), Alphabet(size))
  }

  /** The fill order is the key's distinct symbols followed by the missing
      alphabet symbols, and is a permutation of the alphabet. */
  lemma KeyOrderFacts(size: Size, key: string)
    ensures var u := Dedup(Normalize(size, key));
      KeyOrder(size, key) == u + Missing(Alphabet(size), u)
    ensures |KeyOrder(size, key)| == Side(size) * Side(size)
    ensures Distinct(KeyOrder(size, key))
    ensures forall c :: c in KeyOrder(size, key) <==> IsSymbol(size, c)
    ensures key == [] ==> KeyOrder(size, key) == Alphabet(size)
  {
    var alpha := Alphabet(size);
    var u := Dedup(Normalize(size, key));
    AlphabetIsSymbols(size);
    AppendUnseenDistinct(u, alpha);
    KeyOrderSymbols(size, key);
    SameElementsSameLength(KeyOrder(size, key), alpha);
    if key == [] {
      MissingNone(alpha);
    }
  }

  /** The fill order has no repeats and holds exactly the symbols. */
  lemma KeyOrderSymbols(size: Size, key: string)
    ensures Distinct(KeyOrder(size, key))
    ensures forall c :: c in KeyOrder(size, key) <==> IsSymbol(size, c)
  {
    var u := Dedup(Normalize(size, key));
    AlphabetIsSymbols(size);
    DedupFirstOccurrence(Normalize(size, key));
    assert forall c :: c in u ==> IsSymbol(size, c) by {
      NormalizeSymbols(size, key);
    }
  }

  /** The rows comprehension `[s[i:i+n] for i in range(0, n*k, n)]`. */
  function Rows(s: string, n: nat, k: nat): (m: Grid)
    requires |s| == n * k
    ensures |m| == k && forall r :: 0 <= r < k ==> |m[r]| == n
    ensures Flatten(m) == s
  {
    if k == 0 then []
    else
      assert |s[n..]| == n * (k - 1);
      [s[..n]] + Rows(s[n..], n, k - 1)
  }

  /** Cell (i, j) of the rows of `s` is `s[n*i + j]`. */
  lemma {:induction false} RowsAt(s: string, n: nat, k: nat, i: nat, j: nat)
    requires |s| == n * k && i < k && j < n
    ensures n * i + j < |s| && Rows(s, n, k)[i][j] == s[n * i + j]
  {
    MulStep(n, k);
    if i > 0 {
      RowsAt(s[n..], n, k - 1, i - 1, j);
      MulStep(n, i);
    }
  }

  /** One row less is n cells less. */
  lemma MulStep(n: nat, k: nat)
    requires k > 0
    ensures n * (k - 1) == n * k - n && n <= n * k
  {
  }

  /** Distinct cells of an n-by-n grid have distinct row-major indices. */
  lemma CellIndex(n: nat, i: nat, j: nat, k: nat, l: nat)
    requires n == 5 || n == 6
    requires j < n && l < n && n * i + j == n * k + l
    ensures i == k && j == l
  {
    if n == 5 {
      assert 5 * i + j == 5 * k + l;
    } else {
      assert 6 * i + j == 6 * k + l;
    }
  }

  /** Every row-major index of an n-by-n grid names a cell. */
  lemma CellOf(n: nat, t: nat)
    requires n == 5 || n == 6
    requires t < n * n
    ensures t / n < n && t % n < n && n * (t / n) + t % n == t
  {
    if n == 5 {
      assert t / 5 < 5;
    } else {
      assert t / 6 < 6;
    }
  }

  /** Cutting a duplicate-free permutation of the alphabet into rows gives a
      full matrix. */
  lemma RowsFull(size: Size, s: string)
    requires |s| == Side(size) * Side(size) && Distinct(s)
    requires forall c :: c in s <==> IsSymbol(size, c)
    ensures FullMatrix(size, Rows(s, Side(size), Side(size)))
  {
    var n := Side(size);
    var m := Rows(s, n, n);
    RowsDistinct(s, n);
    forall i, j | 0 <= i < n && 0 <= j < n ensures IsSymbol(size, m[i][j]) {
      RowsAt(s, n, n, i, j);
    }
    forall c | IsSymbol(size, c)
      ensures exists i, j :: 0 <= i < n && 0 <= j < n && m[i][j] == c
    {
      var t :| 0 <= t < |s| && s[t] == c;
      RowsCover(s, n, t);
    }
  }

  lemma RowsDistinct(s: string, n: nat)
    requires n == 5 || n == 6
    requires |s| == n * n && Distinct(s)
    ensures CellsDistinct(Rows(s, n, n))
  {
    var m := Rows(s, n, n);
    forall i, j, k, l | 0 <= i < n && 0 <= j < n && 0 <= k < n && 0 <= l < n && m[i][j] == m[k][l]
      ensures i == k && j == l
    {
      RowsAt(s, n, n, i, j);
      RowsAt(s, n, n, k, l);
      CellIndex(n, i, j, k, l);
    }
  }

  lemma RowsCover(s: string, n: nat, t: nat)
    requires n == 5 || n == 6
    requires |s| == n * n && t < |s|
    ensures exists i, j :: 0 <= i < n && 0 <= j < n && Rows(s, n, n)[i][j] == s[t]
  {
    CellOf(n, t);
    RowsAt(s, n, n, t / n, t % n);
  }

  /** `generate_matrix_5x5`: filter and upper-case the key, fold J into I,
      keep each symbol once, complete with the 25-letter alphabet and cut
      into five rows. */
  method GenerateMatrix5x5(key: string) returns (m: Grid)
    requires IsAscii(key)
    ensures FullMatrix(Five, m)
    ensures Flatten(m) == KeyOrder(Five, key)
  {
    var k := Normalize(Five, key);
    var unique := AddUnseen([], k);
    unique := AddUnseen(unique, ALPHABET_5);
    KeyOrderFacts(Five, key);
    RowsFull(Five, unique);
    m := Rows(unique, 5, 5);
  }

  /** `generate_matrix_6x6`: filter and upper-case the key, keep each symbol
      once, complete with the 36 letters and digits and cut into six rows. */
  method GenerateMatrix6x6(key: string) returns (m: Grid)
    requires IsAscii(key)
    ensures FullMatrix(Six, m)
    ensures Flatten(m) == KeyOrder(Six, key)
  {
    var k := Normalize(Six, key);
    var unique := AddUnseen([], k);
    unique := AddUnseen(unique, ALPHABET_6);
    KeyOrderFacts(Six, key);
    RowsFull(Six, unique);
    m := Rows(unique, 6, 6);
  }

  /** The loop both generators run twice, over the key and over the
      alphabet: append each character not yet in `acc`. */
  method AddUnseen(acc: string, s: string) returns (r: string)
    ensures r == AppendUnseen(acc, s)
  {
    r := acc;
    for i := 0 to |s|
      invariant AppendUnseen(r, s[i..]) == AppendUnseen(acc, s)
    {
      assert s[i..][1..] == s[i + 1..];
      if s[i] !in r {
        r := r + [s[i]];
      }
    }
    assert s[|s|..] == [];
  }

  /** The result of `find_position`: a (row, column) pair or (None, None). */
  datatype Position = At(row: nat, col: nat) | NotFound

  /** `p` is the first row-major cell holding `c` in rows `from..`. */
  predicate FirstCell(m: Grid, c: char, from: nat, p: Position) {
    match p
    case At(i, j) =>
      from <= i < |m| && j < |m[i]| && m[i][j] == c &&
      (forall r, k :: from <= r < i && 0 <= k < |m[r]| ==> m[r][k] != c) &&
      (forall k :: 0 <= k < j ==> m[i][k] != c)
    case NotFound =>
      forall r, k :: from <= r < |m| && 0 <= k < |m[r]| ==> m[r][k] != c
  }

  function LocateFrom(m: Grid, c: char, from: nat): (p: Position)
    requires from <= |m|
    ensures FirstCell(m, c, from, p)
    decreases |m| - from
  {
    if from == |m| then NotFound
    else if c in m[from] then At(from, FirstIndex(m[from], c))
    else LocateFrom(m, c, from + 1)
  }

  /** The position `find_position` reports: the first row-major cell
      holding `c`, or NotFound exactly when no cell holds it. */
  function Locate(m: Grid, c: char): (p: Position)
    ensures FirstCell(m, c, 0, p)
    ensures p.NotFound? <==> forall r, k :: 0 <= r < |m| && 0 <= k < |m[r]| ==> m[r][k] != c
  {
    LocateFrom(m, c, 0)
  }

  /** In a matrix without repeated symbols, every cell is found at its own
      position. */
  lemma LocateCell(m: Grid, i: nat, j: nat)
    requires CellsDistinct(m) && i < |m| && j < |m[i]|
    ensures Locate(m, m[i][j]) == At(i, j)
  {
  }

  /** `find_position`: scan the rows and, within each row, the columns,
      returning at the first cell equal to `c`. */
  method FindPosition(m: Grid, c: char) returns (p: Position)
    ensures p == Locate(m, c)
  {
    for i := 0 to |m|
      invariant forall r, k :: 0 <= r < i && 0 <= k < |m[r]| ==> m[r][k] != c
    {
      for j := 0 to |m[i]|
        invariant forall k :: 0 <= k < j ==> m[i][k] != c
      {
        if m[i][j] == c {
          p := At(i, j);
          return;
        }
      }
    }
    p := NotFound;
  }
}
