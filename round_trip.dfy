/** Running the window's Playfair pass to encrypt a text and running it
    again on the result to decrypt gives back the text as it was paired:
    each admitted character replaced by its symbol in its own case, with the
    fillers standing after the symbols they were placed after. The cipher
    stream re-pairs into the encrypted pairs without any filler, since no
    encrypted pair repeats a symbol; the decryption then undoes every pair,
    and the reconstruction lays the plain stream back over the positions
    the cipher stream took. On the 5x5 matrix the case comes back too; on
    the 6x6 matrix only up to case, because a letter encrypted to a digit
    loses its case. */
module RoundTrip {
  import opened Chars
  import opened Matrix
  import opened Substitution
  import opened Segmentation
  import opened CipherRun

  /** The text as the pairing pass sees it, written back with its case and
      with the fillers in place: what decryption is meant to give back. */
  function Padded(size: Size, sep1: char, sep2: char, text: string): string {
    var (pairs, ins) := Pairing(Normalize(size, text), sep1, sep2);
    Rebuild(size, text, Concat(pairs), ins, 0)
  }

  /** Reconstruction over an empty list of filler positions, for a text
      that starts with `k - i` stream-sized letters in upper case: they take
      the plain symbols `s[i..k]`. */
  lemma {:induction false} RebuildUpperRun(size: Size, e: string, x: string, s: string, i: nat, k: nat)
    requires i <= k <= |e| == |s|
    requires forall t :: i <= t < k ==> Emittable(size, e[t])
    ensures Rebuild(size, e[i..k] + x, s, [], i) == s[i..k] + Rebuild(size, x, s, [], k)
    decreases k - i
  {
    if i < k {
      var tail := e[i + 1..k] + x;
      assert e[i..k] + x == [e[i]] + tail;
      RebuildNoInsertedCons(size, e[i], tail, s, i);
      RebuildUpperRun(size, e, x, s, i + 1, k);
      AppendAssoc([s[i]], s[i + 1..k], Rebuild(size, x, s, [], k));
      assert s[i..k] == [s[i]] + s[i + 1..k];
    } else {
      assert e[i..k] + x == x;
    }
  }

  /** Case survives an upper-case letter: the character written in the case
      of `t` is lower-case exactly when `t` is. */
  lemma CaseThroughLetter(t: char, e: char, s: char)
    requires 'A' <= e <= 'Z'
    ensures IsLower(CaseAs(t, e)) == IsLower(t)
    ensures CaseAs(CaseAs(t, e), s) == CaseAs(t, s)
  {
  }

  /** Reconstructing the reconstruction with the same-length stream `s`
      and no filler positions is the reconstruction with `s`, when the
      first stream holds upper-case letters only. */
  lemma {:induction false} RebuildTwice(size: Size, text: string, e: string, s: string, ins: seq<nat>, i: nat)
    requires i <= |e| == |s|
    requires forall t :: 0 <= t < |e| ==> 'A' <= e[t] <= 'Z'
    ensures Rebuild(size, Rebuild(size, text, e, ins, i), s, [], i) == Rebuild(size, text, s, ins, i)
    decreases |text|
  {
    if text == [] {
      assert e[i..] == e[i..|e|] + [];
      RebuildUpperRun(size, e, [], s, i, |e|);
    } else if Admit(size, text[0]) && i < |e| {
      RebuildTwice(size, text[1..], e, s, ins, Skip(ins, i + 1, |e|));
      TwiceTaken(size, text, e, s, ins, i);
    } else if Admit(size, text[0]) {
      RebuildTwice(size, text[1..], e, s, ins, i);
    } else {
      var rest := Rebuild(size, text[1..], e, ins, i);
      assert ([text[0]] + rest)[1..] == rest;
      RebuildTwice(size, text[1..], e, s, ins, i);
    }
  }

  /** The step of `RebuildTwice` for an admitted character that takes a
      stream symbol. */
  lemma TwiceTaken(size: Size, text: string, e: string, s: string, ins: seq<nat>, i: nat)
    requires text != [] && Admit(size, text[0]) && i < |e| == |s|
    requires forall t :: 0 <= t < |e| ==> 'A' <= e[t] <= 'Z'
    requires var j := Skip(ins, i + 1, |e|);
      Rebuild(size, Rebuild(size, text[1..], e, ins, j), s, [], j) == Rebuild(size, text[1..], s, ins, j)
    ensures Rebuild(size, Rebuild(size, text, e, ins, i), s, [], i) == Rebuild(size, text, s, ins, i)
  {
    TwiceFirst(size, text, e, s, ins, i);
    TakenFirst(size, text, s, ins, i);
    CaseThroughLetter(text[0], e[i], s[i]);
  }

  /** Reconstructing twice, when the first character takes a symbol: the
      symbol written in the case of the first pass, the filler symbols,
      then the rest reconstructed twice. */
  lemma TwiceFirst(size: Size, text: string, e: string, s: string, ins: seq<nat>, i: nat)
    requires text != [] && Admit(size, text[0]) && i < |e| == |s|
    requires forall t :: 0 <= t < |e| ==> Emittable(size, e[t])
    ensures var j := Skip(ins, i + 1, |e|);
      Rebuild(size, Rebuild(size, text, e, ins, i), s, [], i) ==
      [CaseAs(CaseAs(text[0], e[i]), s[i])] + (s[i + 1..j] + Rebuild(size, Rebuild(size, text[1..], e, ins, j), s, [], j))
  {
    var j := Skip(ins, i + 1, |e|);
    var c := CaseAs(text[0], e[i]);
    var rest := Rebuild(size, text[1..], e, ins, j);
    assert Rebuild(size, text, e, ins, i) == [c] + e[i + 1..j] + rest;
    assert Admit(size, c);
    RebuildNoInsertedCons(size, c, e[i + 1..j] + rest, s, i);
    RebuildUpperRun(size, e, rest, s, i + 1, j);
    AppendAssoc([c], e[i + 1..j], rest);
  }

  /** The reconstruction when the first character takes a symbol. */
  lemma TakenFirst(size: Size, text: string, s: string, ins: seq<nat>, i: nat)
    requires text != [] && Admit(size, text[0]) && i < |s|
    ensures var j := Skip(ins, i + 1, |s|);
      Rebuild(size, text, s, ins, i) ==
      [CaseAs(text[0], s[i])] + (s[i + 1..j] + Rebuild(size, text[1..], s, ins, j))
  {
    var j := Skip(ins, i + 1, |s|);
    AppendAssoc([CaseAs(text[0], s[i])], s[i + 1..j], Rebuild(size, text[1..], s, ins, j));
  }

  /** An admitted first character with no filler positions takes exactly
      one stream symbol. */
  lemma RebuildNoInsertedCons(size: Size, c: char, x: string, s: string, i: nat)
    requires Admit(size, c) && i < |s|
    ensures Rebuild(size, [c] + x, s, [], i) == [CaseAs(c, s[i])] + Rebuild(size, x, s, [], i + 1)
  {
    assert ([c] + x)[1..] == x;
    assert Skip([], i + 1, |s|) == i + 1;
    assert s[i + 1..i + 1] == [];
  }

  /** Filtering the reconstruction gives back the stream it was built
      from, when the stream holds symbols only. */
  lemma NormalizeRebuild(size: Size, text: string, e: string, ins: seq<nat>, i: nat)
    requires i <= |e|
    requires forall k :: i <= k < |e| ==> IsSymbol(size, e[k])
    ensures Normalize(size, Rebuild(size, text, e, ins, i)) == e[i..]
  {
    var r := Rebuild(size, text, e, ins, i);
    RebuildLetters(size, text, e, ins, i);
    NormalizeSymbols(size, r);
    var u := UpperAll(Letters(size, r));
    forall k | 0 <= k < |e[i..]| ensures Normalize(size, r)[k] == e[i..][k] {
      assert u[k] == e[i + k];
    }
  }

  /** The encrypted pairs: two symbols each, never the same twice, and
      decrypted back into the plain pairs. */
  lemma EncryptedPairs(size: Size, m: Grid, sep1: char, sep2: char, text: string)
    requires FullMatrix(size, m) && sep1 != sep2
    ensures var ps := Pairing(Normalize(size, text), sep1, sep2).0;
      var qs := SubstituteAll(m, ps, Encrypt);
      && |qs| == |ps|
      && (forall p :: 0 <= p < |qs| ==> |qs[p]| == 2 && qs[p][0] != qs[p][1])
      && SubstituteAll(m, qs, Decrypt) == ps
  {
    var ps := Pairing(Normalize(size, text), sep1, sep2).0;
    PairingValid(Normalize(size, text), sep1, sep2);
    EncryptDistinctPairs(m, ps);
    DecryptEncryptPairs(m, ps);
  }

  lemma EncryptDistinctPairs(m: Grid, ps: seq<string>)
    requires WellFormed(m)
    requires forall p :: 0 <= p < |ps| ==> |ps[p]| == 2 && ps[p][0] != ps[p][1]
    ensures var qs := SubstituteAll(m, ps, Encrypt);
      |qs| == |ps| && forall p :: 0 <= p < |qs| ==> |qs[p]| == 2 && qs[p][0] != qs[p][1]
  {
    var qs := SubstituteAll(m, ps, Encrypt);
    SubstituteAllPairs(m, ps, Encrypt);
    forall p | 0 <= p < |qs| ensures |qs[p]| == 2 && qs[p][0] != qs[p][1] {
      SubstituteKeepsDistinct(m, ps[p][0], ps[p][1], Encrypt);
    }
  }

  /** Decrypting the encrypted pairs gives back the pairs. */
  lemma DecryptEncryptPairs(m: Grid, ps: seq<string>)
    requires WellFormed(m)
    requires forall p :: 0 <= p < |ps| ==> |ps[p]| == 2
    ensures SubstituteAll(m, SubstituteAll(m, ps, Encrypt), Decrypt) == ps
  {
    var qs := SubstituteAll(m, ps, Encrypt);
    SubstituteAllPairs(m, ps, Encrypt);
    SubstituteAllPairs(m, qs, Decrypt);
    var rs := SubstituteAll(m, qs, Decrypt);
    forall p | 0 <= p < |ps| ensures rs[p] == ps[p] {
      PairBack(m, ps[p], qs[p], rs[p]);
    }
  }

  lemma PairBack(m: Grid, pair: string, q: string, r: string)
    requires WellFormed(m) && |pair| == 2
    requires q == SubstitutePair(m, pair[0], pair[1], Encrypt)
    requires r == SubstitutePair(m, q[0], q[1], Decrypt)
    ensures r == pair
  {
    SubstituteRoundTrip(m, pair[0], pair[1], Encrypt);
    assert pair == [pair[0], pair[1]];
  }

  /** Decrypting the encrypted text pairs the cipher stream back into the
      encrypted pairs, without fillers, and decrypts them into the plain
      pairs. */
  lemma DecryptionPass(size: Size, m: Grid, sep1: char, sep2: char, text: string)
    requires FullMatrix(size, m) && sep1 != sep2
    requires IsSymbol(size, sep1) && IsSymbol(size, sep2)
    ensures var (ps, ins) := Pairing(Normalize(size, text), sep1, sep2);
      var r := Cipher(size, m, sep1, sep2, text, Encrypt);
      && Pairing(Normalize(size, r), sep1, sep2) == (SubstituteAll(m, ps, Encrypt), [])
      && CipherStream(size, m, sep1, sep2, r, Decrypt) == Concat(ps)
  {
    var (ps, ins) := Pairing(Normalize(size, text), sep1, sep2);
    var qs := SubstituteAll(m, ps, Encrypt);
    var e := CipherStream(size, m, sep1, sep2, text, Encrypt);
    StreamKeeps(size, m, sep1, sep2, text, Encrypt, c => IsSymbol(size, c));
    NormalizeRebuild(size, text, e, ins, 0);
    EncryptedPairs(size, m, sep1, sep2, text);
    PairingDistinctPairs(qs, sep1, sep2);
  }

  /** Both runs as reconstructions: the encryption rebuilds the text from
      the cipher stream, and the decryption rebuilds that from the plain
      pairs, with no filler positions. */
  lemma TwoPasses(size: Size, m: Grid, sep1: char, sep2: char, text: string)
    requires FullMatrix(size, m) && sep1 != sep2
    requires IsSymbol(size, sep1) && IsSymbol(size, sep2)
    ensures var (ps, ins) := Pairing(Normalize(size, text), sep1, sep2);
      var e := CipherStream(size, m, sep1, sep2, text, Encrypt);
      && |e| == |Concat(ps)|
      && Cipher(size, m, sep1, sep2, Cipher(size, m, sep1, sep2, text, Encrypt), Decrypt) ==
         Rebuild(size, Rebuild(size, text, e, ins, 0), Concat(ps), [], 0)
  {
    var (ps, ins) := Pairing(Normalize(size, text), sep1, sep2);
    var qs := SubstituteAll(m, ps, Encrypt);
    DecryptionPass(size, m, sep1, sep2, text);
    PairingValid(Normalize(size, text), sep1, sep2);
    EncryptedPairs(size, m, sep1, sep2, text);
    ConcatLength(qs);
    ConcatLength(ps);
  }

  /** On the 5x5 matrix, decrypting the encrypted text gives back the text
      as it was paired, case included, whenever the two fillers are
      different symbols of the matrix. */
  lemma DecryptEncryptRun5x5(m: Grid, sep1: char, sep2: char, text: string)
    requires FullMatrix(Five, m) && sep1 != sep2
    requires IsSymbol(Five, sep1) && IsSymbol(Five, sep2)
    ensures Cipher(Five, m, sep1, sep2, Cipher(Five, m, sep1, sep2, text, Encrypt), Decrypt) ==
      Padded(Five, sep1, sep2, text)
  {
    var (ps, ins) := Pairing(Normalize(Five, text), sep1, sep2);
    TwoPasses(Five, m, sep1, sep2, text);
    StreamKeeps(Five, m, sep1, sep2, text, Encrypt, c => IsSymbol(Five, c));
    RebuildTwice(Five, text, CipherStream(Five, m, sep1, sep2, text, Encrypt), Concat(ps), ins, 0);
  }

  /** Upper-casing forgets the case a symbol was written in. */
  lemma UpperCaseAs(t: char, u: char, s: char)
    ensures Upper(CaseAs(t, s)) == Upper(s) == Upper(CaseAs(u, s))
  {
  }

  /** `RebuildTwice` up to case, for any stream of emittable characters:
      a symbol written in lower case may come back as a digit, whose case
      is lost. */
  lemma {:induction false} RebuildTwiceUpper(size: Size, text: string, e: string, s: string, ins: seq<nat>, i: nat)
    requires i <= |e| == |s|
    requires forall t :: 0 <= t < |e| ==> Emittable(size, e[t])
    ensures UpperAll(Rebuild(size, Rebuild(size, text, e, ins, i), s, [], i)) ==
      UpperAll(Rebuild(size, text, s, ins, i))
    decreases |text|
  {
    if text == [] {
      assert e[i..] == e[i..|e|] + [];
      RebuildUpperRun(size, e, [], s, i, |e|);
    } else if Admit(size, text[0]) && i < |e| {
      RebuildTwiceUpper(size, text[1..], e, s, ins, Skip(ins, i + 1, |e|));
      TwiceTakenUpper(size, text, e, s, ins, i);
    } else if Admit(size, text[0]) {
      RebuildTwiceUpper(size, text[1..], e, s, ins, i);
    } else {
      var rest := Rebuild(size, text[1..], e, ins, i);
      assert ([text[0]] + rest)[1..] == rest;
      RebuildTwiceUpper(size, text[1..], e, s, ins, i);
      UpperAllAppend([text[0]], Rebuild(size, rest, s, [], i));
      UpperAllAppend([text[0]], Rebuild(size, text[1..], s, ins, i));
    }
  }

  lemma TwiceTakenUpper(size: Size, text: string, e: string, s: string, ins: seq<nat>, i: nat)
    requires text != [] && Admit(size, text[0]) && i < |e| == |s|
    requires forall t :: 0 <= t < |e| ==> Emittable(size, e[t])
    requires var j := Skip(ins, i + 1, |e|);
      UpperAll(Rebuild(size, Rebuild(size, text[1..], e, ins, j), s, [], j)) ==
      UpperAll(Rebuild(size, text[1..], s, ins, j))
    ensures UpperAll(Rebuild(size, Rebuild(size, text, e, ins, i), s, [], i)) ==
      UpperAll(Rebuild(size, text, s, ins, i))
  {
    var j := Skip(ins, i + 1, |e|);
    var c := CaseAs(text[0], e[i]);
    var back := Rebuild(size, Rebuild(size, text[1..], e, ins, j), s, [], j);
    var plain := Rebuild(size, text[1..], s, ins, j);
    TwiceFirst(size, text, e, s, ins, i);
    TakenFirst(size, text, s, ins, i);
    UpperCaseAs(c, text[0], s[i]);
    UpperAllSuffix(s[i + 1..j], back, plain);
    UpperAllCons(CaseAs(c, s[i]), CaseAs(text[0], s[i]), s[i + 1..j] + back, s[i + 1..j] + plain);
  }

  lemma UpperAllSuffix(p: string, x: string, y: string)
    requires UpperAll(x) == UpperAll(y)
    ensures UpperAll(p + x) == UpperAll(p + y)
  {
    UpperAllAppend(p, x);
    UpperAllAppend(p, y);
  }

  lemma UpperAllCons(a: char, b: char, x: string, y: string)
    requires Upper(a) == Upper(b) && UpperAll(x) == UpperAll(y)
    ensures UpperAll([a] + x) == UpperAll([b] + y)
  {
    UpperAllAppend([a], x);
    UpperAllAppend([b], y);
  }

  /** On either matrix, decrypting the encrypted text gives back the text
      as it was paired, up to case. */
  lemma DecryptEncryptRun(size: Size, m: Grid, sep1: char, sep2: char, text: string)
    requires FullMatrix(size, m) && sep1 != sep2
    requires IsSymbol(size, sep1) && IsSymbol(size, sep2)
    ensures UpperAll(Cipher(size, m, sep1, sep2, Cipher(size, m, sep1, sep2, text, Encrypt), Decrypt)) ==
      UpperAll(Padded(size, sep1, sep2, text))
  {
    var (ps, ins) := Pairing(Normalize(size, text), sep1, sep2);
    TwoPasses(size, m, sep1, sep2, text);
    StreamKeeps(size, m, sep1, sep2, text, Encrypt, c => Emittable(size, c));
    RebuildTwiceUpper(size, text, CipherStream(size, m, sep1, sep2, text, Encrypt), Concat(ps), ins, 0);
  }

  /** Why the 6x6 round trip holds only up to case: a lower-case letter
      that stands where the cipher stream has a digit is written as that
      digit, and the decryption, reading the digit, writes the plain letter
      back in upper case, although the letter written in the case of the
      input would be lower-case. */
  lemma DigitLosesCase(t: char, e: char, s: char)
    requires IsLower(t) && '0' <= e <= '9' && 'A' <= s <= 'Z'
    ensures CaseAs(t, e) == e
    ensures CaseAs(CaseAs(t, e), s) == s
    ensures CaseAs(t, s) != s && IsLower(CaseAs(t, s))
  {
  }

  /** The same on a one-character text: "a" over the digit "0", decrypted
      to "A", comes back "A" where rebuilding "a" from "A" gives "a". */
  lemma DigitLosesCaseExample()
    ensures Rebuild(Six, "a", "0", [], 0) == "0"
    ensures Rebuild(Six, Rebuild(Six, "a", "0", [], 0), "A", [], 0) == "A"
    ensures Rebuild(Six, "a", "A", [], 0) == "a"
  {
    assert Skip([], 1, 1) == 1;
    assert "a"[1..] == [] && "0"[1..] == [];
  }
}
