/** Character classes, the two cipher alphabets and the filtering of key and
    text shared by every Playfair operation (playfair.py:3-10, 13-14, 25,
    45-49, 81). Characters are ASCII: `Upper`, `Lower` and `IsLower` are the
    ASCII case maps. */
module Chars {
  import opened Seqs

  /** The matrix size the user picks: 5x5 (letters, J merged into I) or
      6x6 (letters and digits). */
  datatype Size = Five | Six

  function Side(size: Size): nat {
    if size == Five then 5 else 6
  }

  predicate IsAscii(s: string) {
    forall i :: 0 <= i < |s| ==> s[i] as int < 128
  }

  function Upper(c: char): char {
    if 'a' <= c <= 'z' then (c as int - 32) as char else c
  }

  function Lower(c: char): char {
    if 'A' <= c <= 'Z' then (c as int + 32) as char else c
  }

  predicate IsLower(c: char) {
    'a' <= c <= 'z'
  }

  /** `is_ascii_letter`: the upper-cased character lies in A..Z. */
  function IsAsciiLetter(c: char): (b: bool)
    ensures b <==> 'A' <= c <= 'Z' || 'a' <= c <= 'z'
  {
    'A' <= Upper(c) <= 'Z'
  }

  /** `is_ascii_alnum`: the upper-cased character lies in A..Z or 0..9. */
  function IsAsciiAlnum(c: char): (b: bool)
    ensures b <==> 'A' <= c <= 'Z' || 'a' <= c <= 'z' || '0' <= c <= '9'
  {
    var u := Upper(c);
    ('A' <= u <= 'Z') || ('0' <= u <= '9')
  }

  /** The characters a matrix of this size admits in keys and texts. */
  predicate Admit(size: Size, c: char) {
    if size == Five then IsAsciiLetter(c) else IsAsciiAlnum(c)
  }

  /** The symbols of the cipher alphabet of this size. */
  predicate IsSymbol(size: Size, c: char) {
    if size == Five then 'A' <= c <= 'Z' && c != 'J'
    else 'A' <= c <= 'Z' || '0' <= c <= '9'
  }

  /** The symbol an admitted character stands for: upper-cased, and for
      5x5 with J folded into I. */
  function Canon(size: Size, c: char): char {
    var u := Upper(c);
    if size == Five && u == 'J' then 'I' else u
  }

  /** The canonical alphabets, in the order the matrix is completed. */
  const ALPHABET_5 := "ABCDEFGHIKLMNOPQRSTUVWXYZ"
  const ALPHABET_6 := "ABCDEFGHIJKLMNOPQRSTUVWXYZ0123456789"

  function Alphabet(size: Size): string {
    if size == Five then ALPHABET_5 else ALPHABET_6
  }

  /** Each alphabet lists every symbol of its size exactly once. */
  lemma AlphabetIsSymbols(size: Size)
    ensures |Alphabet(size)| == Side(size) * Side(size)
    ensures Distinct(Alphabet(size))
    ensures forall c :: c in Alphabet(size) <==> IsSymbol(size, c)
  {
    var a := Alphabet(size);
    if size == Five {
      forall i | 0 <= i < 25
        ensures a[i] as int == if i < 9 then 'A' as int + i else 'A' as int + i + 1
      {
      }
      forall c | IsSymbol(size, c) ensures c in a {
        var k := if c < 'J' then c as int - 'A' as int else c as int - 'A' as int - 1;
        assert a[k] == c;
      }
    } else {
      forall i | 0 <= i < 36
        ensures a[i] as int == if i < 26 then 'A' as int + i else '0' as int + i - 26
      {
      }
      forall c | IsSymbol(size, c) ensures c in a {
        var k := if c >= 'A' then c as int - 'A' as int else c as int - '0' as int + 26;
        assert a[k] == c;
      }
    }
  }

  /** The admitted characters of `s`, unchanged, in order. */
  function Letters(size: Size, s: string): (r: string)
    ensures |r| <= |s|
    ensures forall i :: 0 <= i < |r| ==> Admit(size, r[i])
  {
    if s == [] then []
    else (if Admit(size, s[0]) then [s[0]] else []) + Letters(size, s[1..])
  }

  /** The characters of `s` that are not admitted, unchanged, in order. */
  function PassThrough(size: Size, s: string): (r: string)
    ensures |r| + |Letters(size, s)| == |s|
    ensures forall i :: 0 <= i < |r| ==> !Admit(size, r[i])
  {
    if s == [] then []
    else (if Admit(size, s[0]) then [] else [s[0]]) + PassThrough(size, s[1..])
  }

  /** The filtered key or text: one canonical symbol for each admitted
      character, in order. */
  function Normalize(size: Size, s: string): string {
    if s == [] then []
    else (if Admit(size, s[0]) then [Canon(size, s[0])] else []) + Normalize(size, s[1..])
  }

  /** The filtered text has one symbol of the alphabet for each admitted
      character: its canonical form. */
  lemma {:induction false} NormalizeSymbols(size: Size, s: string)
    ensures |Normalize(size, s)| == |Letters(size, s)|
    ensures forall i :: 0 <= i < |Normalize(size, s)| ==>
      IsSymbol(size, Normalize(size, s)[i]) && Normalize(size, s)[i] == Canon(size, Letters(size, s)[i])
  {
    if s != [] {
      NormalizeSymbols(size, s[1..]);
    }
  }

  /** Filtering distributes over concatenation. */
  lemma {:induction false} LettersAppend(size: Size, a: string, b: string)
    ensures Letters(size, a + b) == Letters(size, a) + Letters(size, b)
  {
    if a == [] {
      assert a + b == b;
    } else {
      assert (a + b)[1..] == a[1..] + b;
      LettersAppend(size, a[1..], b);
    }
  }

  lemma {:induction false} PassThroughAppend(size: Size, a: string, b: string)
    ensures PassThrough(size, a + b) == PassThrough(size, a) + PassThrough(size, b)
  {
    if a == [] {
      assert a + b == b;
    } else {
      assert (a + b)[1..] == a[1..] + b;
      PassThroughAppend(size, a[1..], b);
    }
  }

  lemma {:induction false} NormalizeAppend(size: Size, a: string, b: string)
    ensures Normalize(size, a + b) == Normalize(size, a) + Normalize(size, b)
  {
    if a == [] {
      assert a + b == b;
    } else {
      var h := if Admit(size, a[0]) then [Canon(size, a[0])] else [];
      assert (a + b)[1..] == a[1..] + b;
      assert Normalize(size, a + b) == h + Normalize(size, a[1..] + b);
      NormalizeAppend(size, a[1..], b);
      assert h + (Normalize(size, a[1..]) + Normalize(size, b)) ==
        (h + Normalize(size, a[1..])) + Normalize(size, b);
    }
  }

  /** A text made only of admitted characters is kept whole. */
  lemma {:induction false} FilterAdmitted(size: Size, s: string)
    requires forall k :: 0 <= k < |s| ==> Admit(size, s[k])
    ensures Letters(size, s) == s && PassThrough(size, s) == []
  {
    if s != [] {
      FilterAdmitted(size, s[1..]);
    }
  }
}
